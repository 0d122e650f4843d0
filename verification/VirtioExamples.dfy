/** Concrete disk requests: a read, a write, a write that is read back, and one entered past the used ring. */
module VirtioExamples {
  import opened Words
  import opened FlatMemory
  import opened VirtioDisk
  import Q = VirtioMeaning

  /**
    A request for the 512 bytes of sector 0 and the buffer at 0x2000, by a queue of eight entries at
    address 0 whose used index is `index`.
   */
  function SampleByte(x: nat, write: bool, index: byte): byte
  {
    if x == 1 then 0x30                          // header at 0x3000
    else if x == 12 || x == 14 then 1            // NEXT, descriptor 1
    else if x == 17 then 0x20                    // buffer at 0x2000
    else if x == 25 then 2                       // 512 bytes
    else if x == 28 then if write then 1 else 3  // NEXT, and WRITE for the device
    else if x == 30 then 2                       // descriptor 2
    else if x == 33 then 0x40                    // status byte at 0x4000
    else if x == 40 then 1
    else if x == 44 then 2                       // WRITE
    else if x == 0x1002 then index
    else if x == 0x3000 then if write then 1 else 0
    else 0
  }

  ghost function Sample(write: bool, index: byte): Mem { seq(SIZE, x requires 0 <= x < SIZE => SampleByte(x, write, index)) }

  function SampleRequest(write: bool): Request { Request(write, 0, 0x2000, 512, 2) }

  lemma ReadTwo(m: Mem, a: nat, n: nat)
    requires 2 <= n && a + n <= SIZE && forall x :: a + 2 <= x < a + n ==> m[x] == 0
    ensures var lo: nat, hi: nat := m[a], m[a + 1]; ReadN(m, a, n) == lo + 0x100 * hi
  {
    ReadZeros(m, a + 2, n - 2);
    assert a % SIZE == a && (a + 1) % SIZE == a + 1;
    assert ReadN(m, a + 1, n - 1) == m[a + 1];
  }

  lemma SampleDescriptor(write: bool, index: byte, i: u16)
    requires i < 3
    ensures ReadDesc(Sample(write, index), 0, i) ==
      if i == 0 then Descriptor(0x3000, 0, 1, 1) else if i == 1 then Descriptor(0x2000, 512, if write then 1 else 3, 2) else Descriptor(0x4000, 1, 2, 0)
  {
    hide ReadN;
    var m, a := Sample(write, index), i * DESC_SIZE;
    ReadTwo(m, a, 8); ReadTwo(m, a + 8, 4); ReadTwo(m, a + 12, 2); ReadTwo(m, a + 14, 2);
    if i == 0 {} else if i == 1 {} else {}
  }

  /** What the queue and the header hold. */
  predicate Fields(m: Mem, write: bool, index: byte)
  {
    && Head(m, 0, 8) == 0 && Half(m, 0x1002) == index
    && Read32(m, 0x3000) == (if write then 1 else 0) && Read64(m, 0x3008) == 0
  }

  lemma SampleEnds(write: bool, index: byte)
    ensures var m := Sample(write, index);
      (forall x :: 45 <= x < SIZE && x != 0x1002 && x != 0x3000 ==> m[x] == 0) && m[0x1002] == index && m[0x3000] == if write then 1 else 0
  {}

  lemma FieldsAre(m: Mem, write: bool, index: byte)
    requires (forall x :: 45 <= x < SIZE && x != 0x1002 && x != 0x3000 ==> m[x] == 0) && m[0x1002] == index && m[0x3000] == if write then 1 else 0
    ensures Fields(m, write, index)
  {
    hide ReadN;
    ReadZeros(m, 130, 2); ReadZeros(m, 132, 2);
    ReadTwo(m, 0x3000, 4); ReadZeros(m, 0x3008, 8);
    ReadTwo(m, 0x1002, 2);
  }

  lemma Parses(m: Mem, write: bool, index: byte)
    requires Fields(m, write, index)
    requires ReadDesc(m, 0, 0) == Descriptor(0x3000, 0, 1, 1) && ReadDesc(m, 0, 1) == Descriptor(0x2000, 512, if write then 1 else 3, 2)
    ensures FirstTwo(m, SECTOR_SIZE, 0, 0) == Parsed(SampleRequest(write))
  {
    hide ReadN, ReadDesc, Read32, Read64, Head, Half;
    if write {} else {}
  }

  /** Both requests are properly set up, while the slot is away from the header and the status byte. */
  lemma SampleWellFormed(disk: seq<byte>, write: bool, index: byte)
    requires |disk| == SECTOR_SIZE && index <= 8
    ensures var m := Sample(write, index);
      && WellFormed(m, disk, 0, 8) && Used(0, 8) == 0x1000 && Half(m, 0x1002) == index && Head(m, 0, 8) == 0
      && PlacesOf(m, disk, 0, 8) == Places(SampleRequest(write), 0x4000, 0x1000, 0x1004 + 8 * index)
  {
    hide ReadN, ReadDesc, Sample, Head, FirstTwo, Half;
    var m := Sample(write, index);
    SampleEnds(write, index);
    FieldsAre(m, write, index);
    SampleDescriptor(write, index, 0); SampleDescriptor(write, index, 1); SampleDescriptor(write, index, 2);
    Parses(m, write, index);
    assert Used(0, 8) == 0x1000;
    assert PlacesOf(m, disk, 0, 8) == Places(SampleRequest(write), 0x4000, 0x1000, 0x1004 + 8 * index);
  }

  /** The ninth request of a ring of eight: it is properly set up, and its entry lies behind the ring. */
  lemma PastTheRing(disk: seq<byte>, write: bool)
    requires |disk| == SECTOR_SIZE
    ensures var m := Sample(write, 8);
      var o := Serve(m, disk, 0, 8);
      && WellFormed(m, disk, 0, 8)
      && !InsideRing(Used(0, 8), 8, UsedSlot(m, Used(0, 8))) && UsedSlot(m, Used(0, 8)) == Used(0, 8) + 4 + 8 * 8
      && Read32(m, 0x1048) == 0 && o.Served? && Read32(o.mem, 0x1048) == 3
  {
    hide ReadN, Sample, Head, FirstTwo, Half, WellFormed, Serve;
    var m := Sample(write, 8);
    SampleWellFormed(disk, write, 8);
    SampleEnds(write, 8);
    ReadZeros(m, 0x1048, 4);
    ServeWellFormed(m, disk, 0, 8);
  }

  /** Sector 0 is written and read back: the hypotheses of ReadAfterWrite hold of these two requests. */
  lemma WriteThenRead(disk: seq<byte>)
    requires |disk| == SECTOR_SIZE
    ensures var w, r := Notice(Sample(true, 0), 0, 8), Notice(Sample(false, 1), 0, 8);
      var d := DiskOf(disk, w);
      && WellFormed(w.mem, disk, 0, 8) && WellFormed(r.mem, d, 0, 8) && Ready(|disk|, w) && Ready(|disk|, r)
      && OpOf(|disk|, w) == WriteBlock(0, Bytes(w.mem, 0x2000, 512)) && OpOf(|disk|, r) == ReadBlock(0, 512)
      && Bytes(MemOf(d, r), 0x2000, 512) == Bytes(w.mem, 0x2000, 512)
  {
    hide ReadN, Sample, Head, FirstTwo, Half, WellFormed, Bytes, DiskOf, MemOf, ReadDesc, Used, UsedSlot;
    var w, r := Notice(Sample(true, 0), 0, 8), Notice(Sample(false, 1), 0, 8);
    SampleWellFormed(disk, true, 0);
    NoticeServed(disk, w);
    var d := DiskOf(disk, w);
    SampleWellFormed(d, false, 1);
    NoticeServed(d, r);
    assert RunDisk(d, []) == d;
    ReadAfterWrite(disk, w, [], r);
  }

  /** Nine reads one after the other, the used index going from `i` on. */
  ghost function Reads(i: nat): (ns: seq<Notice>)
    requires i <= 9
    ensures |ns| == 9 - i
    decreases 9 - i
  {
    if i == 9 then [] else [Notice(Sample(false, i), 0, 8)] + Reads(i + 1)
  }

  lemma ReadServed(disk: seq<byte>, i: nat)
    requires |disk| == SECTOR_SIZE && i <= 8
    ensures var r := Notice(Sample(false, i), 0, 8);
      && WellFormed(r.mem, disk, 0, 8) && DiskOf(disk, r) == disk
      && Half(r.mem, Used(0, 8) + 2) == i && Half(MemOf(disk, r), Used(0, 8) + 2) == i + 1
  {
    hide ReadN, Sample, Head, FirstTwo, Half, WellFormed, Bytes, DiskOf, MemOf, ReadDesc, UsedSlot;
    SampleWellFormed(disk, false, i);
    NoticeServed(disk, Notice(Sample(false, i), 0, 8));
  }

  lemma {:induction false} ReadsWellFormed(disk: seq<byte>, i: nat)
    requires |disk| == SECTOR_SIZE && i <= 9
    ensures AllWellFormed(disk, Reads(i)) && SameQueue(disk, Reads(i), 0, 8)
    ensures i < 9 ==> Half(Reads(i)[0].mem, Used(0, 8) + 2) == i
    decreases 9 - i
  {
    hide WellFormed, DiskOf, MemOf, Half, Used, Sample;
    if i < 9 {
      ReadServed(disk, i);
      ReadsWellFormed(disk, i + 1);
      assert Reads(i)[1..] == Reads(i + 1);
    }
  }

  /** They are entered in the eight slots of the ring, the ninth behind it. */
  lemma NineReads(disk: seq<byte>)
    requires |disk| == SECTOR_SIZE
    ensures AllWellFormed(disk, Reads(0)) && SameQueue(disk, Reads(0), 0, 8)
    ensures forall i :: 0 <= i < 8 ==> InsideRing(Used(0, 8), 8, UsedSlot(Reads(0)[i].mem, Used(0, 8)))
    ensures !InsideRing(Used(0, 8), 8, UsedSlot(Reads(0)[8].mem, Used(0, 8)))
  {
    hide AllWellFormed, SameQueue, UsedSlot, Half, Used, Reads;
    ReadsWellFormed(disk, 0);
    RingOverrun(disk, Reads(0), 0, 8);
  }

  // ----- an available index of one -----

  /** Two chains, a write at descriptor 0 and a read at descriptor 3; the ring holds 0 and 3, and the index is 1. */
  function SecondByte(x: nat): byte
  {
    if x == 1 then 0x38                           // header at 0x3800
    else if x in {12, 14, 28, 40} then 1
    else if x == 17 || x == 65 then 0x20          // buffers at 0x2000
    else if x in {25, 30, 44, 73, 92} then 2
    else if x == 33 || x == 81 then 0x40          // status bytes at 0x4000
    else if x == 49 then 0x30                     // header at 0x3000
    else if x in {60, 88, 130, 0x3800} then 1     // the index, and the header's type
    else if x == 62 then 4
    else if x in {76, 134} then 3
    else if x == 78 then 5
    else 0
  }

  ghost function Second(): Mem { seq(SIZE, x requires 0 <= x < SIZE => SecondByte(x)) }

  predicate SecondBytes(m: Mem) { forall x :: 0 <= x < SIZE ==> m[x] == SecondByte(x) }

  lemma SecondRead(m: Mem, a: nat, n: nat)
    requires SecondBytes(m) && 2 <= n <= 8 && a + n <= SIZE
    requires forall x :: a + 2 <= x < a + n ==> SecondByte(x) == 0
    ensures var lo: nat, hi: nat := SecondByte(a), SecondByte(a + 1); ReadN(m, a, n) == lo + 0x100 * hi
  {
    ReadTwo(m, a, n);
  }

  function WriteChain(): Q.Chain { Q.Chain(0x3800, 1, 0, 1, 1, 0x2000, 512, 1, 2, 0x4000, 1, 2) }

  function ReadChain(): Q.Chain { Q.Chain(0x3000, 0, 0, 1, 4, 0x2000, 512, 3, 5, 0x4000, 1, 2) }

  lemma FirstChain(m: Mem)
    requires SecondBytes(m)
    ensures Q.ChainAt(m, 0, 0) == WriteChain()
  {
    hide ReadN, SecondBytes;
    SecondRead(m, 0, 8); SecondRead(m, 12, 2); SecondRead(m, 14, 2);
    SecondRead(m, 16, 8); SecondRead(m, 24, 4); SecondRead(m, 28, 2); SecondRead(m, 30, 2);
    SecondRead(m, 32, 8); SecondRead(m, 40, 4); SecondRead(m, 44, 2);
    SecondRead(m, 0x3800, 4); SecondRead(m, 0x3808, 8);
  }

  lemma OtherChain(m: Mem)
    requires SecondBytes(m)
    ensures Q.ChainAt(m, 0, 3) == ReadChain()
  {
    hide ReadN, SecondBytes;
    SecondRead(m, 48, 8); SecondRead(m, 60, 2); SecondRead(m, 62, 2);
    SecondRead(m, 64, 8); SecondRead(m, 72, 4); SecondRead(m, 76, 2); SecondRead(m, 78, 2);
    SecondRead(m, 80, 8); SecondRead(m, 88, 4); SecondRead(m, 92, 2);
    SecondRead(m, 0x3000, 4); SecondRead(m, 0x3008, 8);
  }

  lemma SecondPublished(m: Mem)
    requires SecondBytes(m)
    ensures Q.Published(m, 0, 8, 1, 3) && !Q.Published(m, 0, 8, 1, 0) && ReadN(m, 132, 2) == 0 && ReadN(m, 0x1002, 2) == 0
  {
    hide ReadN, SecondBytes;
    SecondRead(m, 130, 2); SecondRead(m, 132, 2); SecondRead(m, 134, 2); SecondRead(m, 0x1002, 2);
  }

  /** Chain 3 is served and entered, though slot 0 holds a chain that asks for something else. */
  lemma SecondSlot(disk: seq<byte>)
    requires |disk| == SECTOR_SIZE
    ensures var m, o := Second(), Serve(Second(), disk, 0, 8);
      && Q.Published(m, 0, 8, 1, 3) && ReadN(m, 132, 2) == 0
      && Q.Proper(Q.ChainAt(m, 0, 0)) && Q.Writes(Q.ChainAt(m, 0, 0)) && Q.OpAt(m, 0, 3) == ReadBlock(0, 512)
      && o.Served? && o.disk == disk && Bytes(o.mem, 0x2000, 512) == disk && ReadN(o.mem, 0x1004, 4) == 3
  {
    hide ReadN, Second, SecondBytes, Q.Published, Q.ChainAt, Serve, Bytes;
    var m := Second();
    SecondHas(m);
    SecondPublished(m);
    FirstChain(m); OtherChain(m);
    assert Q.SlotAt(m, 0x1000) == 0x1004;
    assert Q.Clear(m, 0, 0x1000, ReadChain());
    Q.ServePublished(m, disk, 0, 8, 0x1000, 1, 3);
    assert disk[0..512] == disk;
  }

  lemma SecondHas(m: Mem)
    requires m == Second()
    ensures SecondBytes(m)
  {}
}
