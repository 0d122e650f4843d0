/**
  The disk's side of a virtio request (PeripheralEmulator.cpp), as functions on memory and the disk
  image, and the proof that a sequence of requests behaves like a block device.
 */
module VirtioDisk {
  import opened Words
  import opened FlatMemory

  const SECTOR_SIZE := 512
  const QUEUE_PAGE := 4096
  const DESC_SIZE := 16

  datatype Descriptor = Descriptor(addr: u64, len: u32, flags: u16, next: u16)

  function Half(m: Mem, a: nat): (v: u16)
    ensures v == ReadN(m, a, 2)
  {
    ReadBound(m, a, 2); PowValues();
    ReadN(m, a, 2)
  }

  function DescAddress(table: nat, index: u16): nat { table + index * DESC_SIZE }

  function ReadDesc(m: Mem, table: nat, index: u16): Descriptor
  {
    var a := DescAddress(table, index);
    Descriptor(Read64(m, a), Read32(m, a + 8), Half(m, a + 12), Half(m, a + 14))
  }

  /** The request the three descriptors of a chain and the header in memory describe. */
  datatype Request = Request(write: bool, sector: u64, buffer: u64, len: u32, status: u16) {
    /** Where the bytes that move begin in the image; a request of no bytes touches none of it. */
    const Start: nat := if len == 0 then 0 else (sector * SECTOR_SIZE) % TWO64
  }

  // The parts of the virtqueue, which lies at `queue` and has `n` entries.
  function Avail(queue: nat, n: nat): nat { queue + n * DESC_SIZE }

  function Used(queue: nat, n: nat): nat { (Avail(queue, n) + 2 * (2 + n) + QUEUE_PAGE - 1) / QUEUE_PAGE * QUEUE_PAGE }

  /** The head of the chain: the slot of the available ring is `idx % n`. */
  function Head(m: Mem, queue: nat, n: nat): u16
    requires n > 0
  {
    Half(m, Avail(queue, n) + 4 + Half(m, Avail(queue, n) + 2) % n * 2)
  }

  datatype Parsed = Malformed | Parsed(request: Request)

  /**
    The request at `head`. The status descriptor is looked up in `m'`, the memory after the data has
    been moved. Where the source runs into a failed assertion there is no request.
   */
  function FirstTwo(m: Mem, disk: nat, table: nat, head: u16): Parsed
  {
    var first := ReadDesc(m, table, head);
    if first.addr % 8 != 0 || first.flags % 2 != 1 then Malformed
    else
      var write := Read32(m, first.addr) == 1;
      var second := ReadDesc(m, table, first.next);
      var r := Request(write, Read64(m, first.addr + 8), second.addr, second.len, second.next);
      if ((second.flags / 2) % 2 == 0) != write || r.Start + r.len > disk then Malformed else Parsed(r)
  }

  predicate StatusOk(d: Descriptor) { d.len == 1 && d.flags % 4 == 2 }

  /** `n` bytes of memory from address `a` on. */
  function Bytes(m: Mem, a: nat, n: nat): (bs: seq<byte>)
    ensures |bs| == n
  {
    seq(n, k requires 0 <= k < n => ByteAt(m, a, k))
  }

  function PutBytes(m: Mem, a: nat, bs: seq<byte>): Mem
    decreases |bs|
  {
    if bs == [] then m else PutBytes(m, a, bs[..|bs| - 1])[(a + |bs| - 1) % SIZE := bs[|bs| - 1]]
  }

  /** disc_access: the data goes from the buffer to the disk image or back. */
  function MemoryAfter(m: Mem, disk: seq<byte>, r: Request): Mem
    requires r.Start + r.len <= |disk|
  {
    if r.write then m else PutBytes(m, r.buffer, disk[r.Start..r.Start + r.len])
  }

  function DiskAfter(m: Mem, disk: seq<byte>, r: Request): (d: seq<byte>)
    requires r.Start + r.len <= |disk|
    ensures |d| == |disk|
  {
    if r.write then disk[..r.Start] + Bytes(m, r.buffer, r.len) + disk[r.Start + r.len..] else disk
  }

  /** process_used_buffer: the slot is not reduced modulo the length of the queue. */
  function UsedSlot(m: Mem, used: nat): nat { used + 4 + Half(m, used + 2) * 8 }

  function NextIndex(k: u16): (r: u16)
    ensures r < 0x1_0000
  {
    (k + 1) % 0x1_0000
  }

  function Enter(m: Mem, used: nat, head: u16): Mem
  {
    var slot := UsedSlot(m, used);
    WriteN(WriteN(WriteN(m, slot, head, 4), slot + 4, 3, 4), used + 2, NextIndex(Half(m, used + 2)), 2)
  }

  datatype Outcome = Rejected | Served(mem: Mem, disk: seq<byte>)

  /** VirtioDiskAccess for the queue at `queue` with `n` entries. */
  function Serve(m: Mem, disk: seq<byte>, queue: nat, n: nat): Outcome
    requires n > 0
  {
    var head := Head(m, queue, n);
    match FirstTwo(m, |disk|, queue, head)
    case Malformed => Rejected
    case Parsed(r) =>
      RequestFits(m, |disk|, queue, head);
      var m1 := MemoryAfter(m, disk, r);
      var status := ReadDesc(m1, queue, r.status);
      if !StatusOk(status) then Rejected
      else Served(Enter(WriteN(m1, status.addr, 0, 1), Used(queue, n), head), DiskAfter(m, disk, r))
  }

  lemma RequestFits(m: Mem, disk: nat, table: nat, head: u16)
    ensures var p := FirstTwo(m, disk, table, head); p.Parsed? ==> p.request.Start + p.request.len <= disk
  {}

  // ----- one request -----

  /** Where the request's parts are, once the chain is known to be well formed. */
  datatype Places = Places(r: Request, statusByte: nat, used: nat, slot: nat)

  function PlacesOf(m: Mem, disk: seq<byte>, queue: nat, n: nat): (p: Places)
    requires n > 0 && FirstTwo(m, |disk|, queue, Head(m, queue, n)).Parsed?
    ensures p.r.Start + p.r.len <= |disk|
  {
    var r := FirstTwo(m, |disk|, queue, Head(m, queue, n)).request;
    RequestFits(m, |disk|, queue, Head(m, queue, n));
    Places(r, ReadDesc(m, queue, r.status).addr, Used(queue, n), UsedSlot(m, Used(queue, n)))
  }

  /**
    A request the driver has set up properly: the chain is well formed, and the buffer of a disk read,
    the status byte, the status descriptor and the parts of the used ring do not overlap.
   */
  ghost predicate WellFormed(m: Mem, disk: seq<byte>, queue: nat, n: nat)
  {
    && n > 0 && FirstTwo(m, |disk|, queue, Head(m, queue, n)).Parsed?
    && var p := PlacesOf(m, disk, queue, n);
       && StatusOk(ReadDesc(m, queue, p.r.status))
       && Apart(p.statusByte, 1, p.slot, 8) && Apart(p.statusByte, 1, p.used + 2, 2) && Apart(p.slot, 8, p.used + 2, 2)
       && (!p.r.write ==>
             && Apart(p.r.buffer, p.r.len, p.statusByte, 1) && Apart(p.r.buffer, p.r.len, p.slot, 8)
             && Apart(p.r.buffer, p.r.len, p.used + 2, 2) && Apart(p.r.buffer, p.r.len, DescAddress(queue, p.r.status), DESC_SIZE))
  }

  lemma {:induction false} PutBytesAt(m: Mem, a: nat, bs: seq<byte>, x: nat)
    requires |bs| <= SIZE && x < SIZE
    ensures PutBytes(m, a, bs)[x] == if Off(x, a) < |bs| then bs[Off(x, a)] else m[x]
    decreases |bs|
  {
    if bs != [] {
      var k := |bs| - 1;
      PutBytesAt(m, a, bs[..k], x);
      LastOff(x, a, k);
    }
  }

  lemma LastOff(x: nat, a: nat, k: nat)
    requires x < SIZE && k < SIZE
    ensures (a + k) % SIZE == x <==> Off(x, a) == k
  {}

  lemma PutBytesKeeps(m: Mem, a: nat, bs: seq<byte>, b: nat, k: nat)
    requires |bs| <= SIZE && k <= SIZE && Apart(a, |bs|, b, k)
    ensures ReadN(PutBytes(m, a, bs), b, k) == ReadN(m, b, k)
  {
    hide PutBytes, ReadN;
    forall i | 0 <= i < k ensures ByteAt(PutBytes(m, a, bs), b, i) == ByteAt(m, b, i) {
      PutBytesAt(m, a, bs, (b + i) % SIZE);
      OffApart(a, |bs|, b, k, i);
    }
    ReadCongruent(PutBytes(m, a, bs), m, b, b, k);
  }

  lemma PutBytesBack(m: Mem, a: nat, bs: seq<byte>)
    requires |bs| <= SIZE
    ensures Bytes(PutBytes(m, a, bs), a, |bs|) == bs
  {
    hide PutBytes;
    forall k | 0 <= k < |bs| ensures ByteAt(PutBytes(m, a, bs), a, k) == bs[k] {
      OffBack(a, k);
      PutBytesAt(m, a, bs, (a + k) % SIZE);
    }
  }

  lemma BytesKept(m: Mem, b: nat, v: nat, k: nat, a: nat, n: nat)
    requires k <= 8 && n <= SIZE && Apart(b, k, a, n)
    ensures Bytes(WriteN(m, b, v, k), a, n) == Bytes(m, a, n)
  {
    hide WriteN;
    forall i | 0 <= i < n ensures ByteAt(WriteN(m, b, v, k), a, i) == ByteAt(m, a, i) {
      WriteAt(m, b, v, k, (a + i) % SIZE);
      OffApart(b, k, a, n, i);
    }
  }

  lemma ApartPart(a: nat, n: nat, b: nat, k: nat, i: nat, j: nat)
    requires Apart(a, n, b, k) && i + j <= k && 0 < j && 0 < n && k <= SIZE
    ensures Apart(a, n, b + i, j) && Apart(b + i, j, a, n)
  {}

  lemma ApartSwap(a: nat, n: nat, b: nat, k: nat)
    requires Apart(a, n, b, k)
    ensures Apart(b, k, a, n)
  {}

  lemma SlotHalves(slot: nat)
    ensures Apart(slot + 4, 4, slot, 4)
  {}

  /** The status descriptor and the used index are still what they were after the data has been moved. */
  lemma DataKeeps(m: Mem, disk: seq<byte>, queue: nat, n: nat)
    requires WellFormed(m, disk, queue, n)
    ensures var p := PlacesOf(m, disk, queue, n);
      var m1 := MemoryAfter(m, disk, p.r);
      ReadDesc(m1, queue, p.r.status) == ReadDesc(m, queue, p.r.status) && Half(m1, p.used + 2) == Half(m, p.used + 2)
  {
    hide FirstTwo, Head, Used, UsedSlot, PutBytes, ReadN, Apart, StatusOk, DescAddress;
    var p := PlacesOf(m, disk, queue, n);
    if !p.r.write {
      var a, bs, d := p.r.buffer, disk[p.r.Start..p.r.Start + p.r.len], DescAddress(queue, p.r.status);
      if |bs| > 0 {
        ApartPart(a, |bs|, d, DESC_SIZE, 0, 8); ApartPart(a, |bs|, d, DESC_SIZE, 8, 4);
        ApartPart(a, |bs|, d, DESC_SIZE, 12, 2); ApartPart(a, |bs|, d, DESC_SIZE, 14, 2);
        PutBytesKeeps(m, a, bs, d, 8); PutBytesKeeps(m, a, bs, d + 8, 4);
        PutBytesKeeps(m, a, bs, d + 12, 2); PutBytesKeeps(m, a, bs, d + 14, 2);
        PutBytesKeeps(m, a, bs, p.used + 2, 2);
      } else {
        NoBytes(m, a, bs);
      }
    }
  }

  lemma NoBytes(m: Mem, a: nat, bs: seq<byte>)
    requires |bs| == 0
    ensures PutBytes(m, a, bs) == m
  {}

  /** The memory `Serve` leaves, in terms of the places of the request. */
  function Served4(m: Mem, disk: seq<byte>, p: Places, head: u16): Mem
    requires p.r.Start + p.r.len <= |disk|
  {
    var m2 := WriteN(MemoryAfter(m, disk, p.r), p.statusByte, 0, 1);
    WriteN(WriteN(WriteN(m2, p.slot, head, 4), p.slot + 4, 3, 4), p.used + 2, (Half(m, p.used + 2) + 1) % 0x1_0000, 2)
  }

  lemma ServeIs(m: Mem, disk: seq<byte>, queue: nat, n: nat)
    requires WellFormed(m, disk, queue, n)
    ensures var p, head := PlacesOf(m, disk, queue, n), Head(m, queue, n);
      Serve(m, disk, queue, n) == Served(Served4(m, disk, p, head), DiskAfter(m, disk, p.r))
  {
    hide FirstTwo, Head, Used, PutBytes, ReadN, WriteN, Apart, StatusOk, DescAddress, MemoryAfter, DiskAfter, ReadDesc;
    var p, head := PlacesOf(m, disk, queue, n), Head(m, queue, n);
    DataKeeps(m, disk, queue, n);
    var m1 := MemoryAfter(m, disk, p.r);
    ReadOtherWrite(m1, p.statusByte, 0, 1, p.used + 2, 2);
  }

  /** Address `x` is none the request writes to. */
  predicate Outside(x: nat, p: Places)
  {
    (p.r.write || Off(x, p.r.buffer) >= p.r.len) && Off(x, p.statusByte) >= 1 && Off(x, p.slot) >= 8 && Off(x, p.used + 2) >= 2
  }

  /** What one properly set up request does. */
  lemma ServeWellFormed(m: Mem, disk: seq<byte>, queue: nat, n: nat)
    requires WellFormed(m, disk, queue, n)
    ensures var p, o := PlacesOf(m, disk, queue, n), Serve(m, disk, queue, n);
      && o.Served?
      // the data
      && o.disk == DiskAfter(m, disk, p.r)
      && (if p.r.write then o.disk[p.r.Start..p.r.Start + p.r.len] == Bytes(m, p.r.buffer, p.r.len)
          else Bytes(o.mem, p.r.buffer, p.r.len) == disk[p.r.Start..p.r.Start + p.r.len])
      // the status byte and the used ring
      && o.mem[p.statusByte % SIZE] == 0
      && Half(o.mem, p.used + 2) == (Half(m, p.used + 2) + 1) % 0x1_0000
      && Read32(o.mem, p.slot) == Head(m, queue, n) && Read32(o.mem, p.slot + 4) == 3
      // nothing else
      && forall x :: 0 <= x < SIZE && Outside(x, p) ==> o.mem[x] == m[x]
  {
    hide FirstTwo, Head, Used, UsedSlot, PutBytes, ReadN, WriteN, Apart, StatusOk, DescAddress, ReadDesc, Serve, Off, Pow256;
    var p, head := PlacesOf(m, disk, queue, n), Head(m, queue, n);
    ServeIs(m, disk, queue, n);
    var m1 := MemoryAfter(m, disk, p.r);
    var idx := (Half(m, p.used + 2) + 1) % 0x1_0000;
    RingWritten(m1, p.statusByte, p.slot, p.used + 2, head, idx);
    if !p.r.write {
      PutBytesBack(m, p.r.buffer, disk[p.r.Start..p.r.Start + p.r.len]);
      RingKeepsBuffer(m1, p.statusByte, p.slot, p.used + 2, head, idx, p.r.buffer, p.r.len);
    }
    forall x | 0 <= x < SIZE && (p.r.write || Off(x, p.r.buffer) >= p.r.len) ensures m1[x] == m[x] {
      if !p.r.write { PutBytesAt(m, p.r.buffer, disk[p.r.Start..p.r.Start + p.r.len], x); }
    }
  }

  /** The writes after the data has been moved. */
  function Ring(m: Mem, status: nat, slot: nat, idxAddress: nat, head: u16, idx: u16): Mem
  {
    WriteN(WriteN(WriteN(WriteN(m, status, 0, 1), slot, head, 4), slot + 4, 3, 4), idxAddress, idx, 2)
  }

  lemma RingWritten(m: Mem, status: nat, slot: nat, idxAddress: nat, head: u16, idx: u16)
    requires Apart(status, 1, slot, 8) && Apart(status, 1, idxAddress, 2) && Apart(slot, 8, idxAddress, 2)
    ensures var m' := Ring(m, status, slot, idxAddress, head, idx);
      && m'[status % SIZE] == 0 && Half(m', idxAddress) == idx
      && Read32(m', slot) == head && Read32(m', slot + 4) == 3
      && forall x :: 0 <= x < SIZE && Off(x, status) >= 1 && Off(x, slot) >= 8 && Off(x, idxAddress) >= 2 ==> m'[x] == m[x]
  {
    hide ReadN, WriteN, Apart, Off, Pow256;
    var m2 := WriteN(m, status, 0, 1);
    var m3 := WriteN(m2, slot, head, 4);
    var m4 := WriteN(m3, slot + 4, 3, 4);
    PowValues();
    ApartSwap(status, 1, slot, 8); ApartSwap(status, 1, idxAddress, 2); ApartSwap(slot, 8, idxAddress, 2);
    ApartPart(status, 1, slot, 8, 0, 4); ApartPart(status, 1, slot, 8, 4, 4);
    ApartPart(idxAddress, 2, slot, 8, 0, 4); ApartPart(idxAddress, 2, slot, 8, 4, 4);
    SlotHalves(slot);
    ReadOwnWrite(m4, idxAddress, idx, 2);
    ReadOwnWrite(m3, slot + 4, 3, 4);
    ReadOtherWrite(m4, idxAddress, idx, 2, slot + 4, 4);
    ReadOwnWrite(m2, slot, head, 4);
    ReadOtherWrite(m3, slot + 4, 3, 4, slot, 4);
    ReadOtherWrite(m4, idxAddress, idx, 2, slot, 4);
    ReadOwnWrite(m, status, 0, 1);
    ReadOtherWrite(m2, slot, head, 4, status, 1);
    ReadOtherWrite(m3, slot + 4, 3, 4, status, 1);
    ReadOtherWrite(m4, idxAddress, idx, 2, status, 1);
    SingleByte(WriteN(m4, idxAddress, idx, 2), status);
    forall x | 0 <= x < SIZE && Off(x, status) >= 1 && Off(x, slot) >= 8 && Off(x, idxAddress) >= 2
      ensures WriteN(m4, idxAddress, idx, 2)[x] == m[x]
    {
      WriteAt(m, status, 0, 1, x);
      WriteAt(m2, slot, head, 4, x);
      OffFour(x, slot);
      WriteAt(m3, slot + 4, 3, 4, x);
      WriteAt(m4, idxAddress, idx, 2, x);
    }
  }

  lemma OffFour(x: nat, slot: nat)
    requires Off(x, slot) >= 8
    ensures Off(x, slot + 4) >= 4
  {}

  lemma SingleByte(m: Mem, a: nat)
    ensures ReadN(m, a, 1) == m[a % SIZE]
  {}

  lemma RingKeepsBuffer(m: Mem, status: nat, slot: nat, idxAddress: nat, head: u16, idx: u16, buffer: nat, len: nat)
    requires len < SIZE
    requires Apart(buffer, len, status, 1) && Apart(buffer, len, slot, 8) && Apart(buffer, len, idxAddress, 2)
    ensures Bytes(Ring(m, status, slot, idxAddress, head, idx), buffer, len) == Bytes(m, buffer, len)
  {
    hide ReadN, WriteN, Apart, Off;
    var m2 := WriteN(m, status, 0, 1);
    var m3 := WriteN(m2, slot, head, 4);
    var m4 := WriteN(m3, slot + 4, 3, 4);
    ApartSwap(buffer, len, status, 1); ApartSwap(buffer, len, idxAddress, 2);
    BytesKept(m, status, 0, 1, buffer, len);
    if len > 0 {
      ApartPart(buffer, len, slot, 8, 0, 4); ApartPart(buffer, len, slot, 8, 4, 4);
      BytesKept(m2, slot, head, 4, buffer, len);
      BytesKept(m3, slot + 4, 3, 4, buffer, len);
    }
    BytesKept(m4, idxAddress, idx, 2, buffer, len);
  }

  // ----- a sequence of requests is a block device -----

  /** The state of the guest's memory when it notifies the disk, and its queue. */
  datatype Notice = Notice(mem: Mem, queue: nat, n: nat)

  /** The disk image after the notices, which may come from a guest that does anything in between. */
  function RunDisk(disk: seq<byte>, ns: seq<Notice>): (d: seq<byte>)
    requires AllWellFormed(disk, ns)
    decreases |ns|
  {
    if ns == [] then disk else RunDisk(DiskOf(disk, ns[0]), ns[1..])
  }

  ghost predicate AllWellFormed(disk: seq<byte>, ns: seq<Notice>)
    decreases |ns|
  {
    ns == [] || (WellFormed(ns[0].mem, disk, ns[0].queue, ns[0].n) && AllWellFormed(DiskOf(disk, ns[0]), ns[1..]))
  }

  function DiskOf(disk: seq<byte>, c: Notice): seq<byte>
  {
    if c.n == 0 then disk else
      match Serve(c.mem, disk, c.queue, c.n)
      case Rejected => disk
      case Served(_, d) => d
  }

  function MemOf(disk: seq<byte>, c: Notice): Mem
  {
    if c.n == 0 then c.mem else
      match Serve(c.mem, disk, c.queue, c.n)
      case Rejected => c.mem
      case Served(m, _) => m
  }

  /** What a driver asks of a disk: the bytes from `start` on are overwritten, or read. */
  datatype BlockOp = WriteBlock(start: nat, data: seq<byte>) | ReadBlock(start: nat, len: nat)

  predicate InRange(op: BlockOp, size: nat)
  {
    match op
    case WriteBlock(start, data) => start + |data| <= size
    case ReadBlock(start, len) => start + len <= size
  }

  function Apply(disk: seq<byte>, op: BlockOp): (d: seq<byte>)
    requires InRange(op, |disk|)
    ensures |d| == |disk|
  {
    match op
    case WriteBlock(start, data) => disk[..start] + data + disk[start + |data|..]
    case ReadBlock(_, _) => disk
  }

  predicate Ready(size: nat, c: Notice) { c.n > 0 && FirstTwo(c.mem, size, c.queue, Head(c.mem, c.queue, c.n)).Parsed? }

  /** The operation a notice stands for; it does not depend on the contents of the disk. */
  function OpOf(size: nat, c: Notice): (op: BlockOp)
    requires Ready(size, c)
    ensures InRange(op, size)
  {
    RequestFits(c.mem, size, c.queue, Head(c.mem, c.queue, c.n));
    var r := FirstTwo(c.mem, size, c.queue, Head(c.mem, c.queue, c.n)).request;
    if r.write then WriteBlock(r.Start, Bytes(c.mem, r.buffer, r.len)) else ReadBlock(r.Start, r.len)
  }

  /** The facts about one request that a sequence of them is made of. */
  lemma NoticeServed(disk: seq<byte>, c: Notice)
    requires WellFormed(c.mem, disk, c.queue, c.n)
    ensures Ready(|disk|, c)
    ensures DiskOf(disk, c) == Apply(disk, OpOf(|disk|, c)) && |DiskOf(disk, c)| == |disk|
    ensures Half(MemOf(disk, c), Used(c.queue, c.n) + 2) == (Half(c.mem, Used(c.queue, c.n) + 2) + 1) % 0x1_0000
    ensures var op := OpOf(|disk|, c);
      op.ReadBlock? ==> Bytes(MemOf(disk, c), PlacesOf(c.mem, disk, c.queue, c.n).r.buffer, op.len) == disk[op.start..op.start + op.len]
  {
    hide FirstTwo, Head, Serve, Used, UsedSlot, ReadDesc, Bytes, Half, StatusOk, Apart, Off, ReadN, WriteN, Outside, DescAddress;
    ServeWellFormed(c.mem, disk, c.queue, c.n);
  }

  /** The operations of a block device, applied one after the other. */
  function ApplyAll(disk: seq<byte>, ops: seq<BlockOp>): seq<byte>
    requires forall i :: 0 <= i < |ops| ==> InRange(ops[i], |disk|)
    decreases |ops|
  {
    if ops == [] then disk else ApplyAll(Apply(disk, ops[0]), ops[1..])
  }

  function OpsOf(size: nat, ns: seq<Notice>): (ops: seq<BlockOp>)
    requires forall i :: 0 <= i < |ns| ==> Ready(size, ns[i])
    ensures |ops| == |ns| && forall i :: 0 <= i < |ops| ==> InRange(ops[i], size)
  {
    seq(|ns|, i requires 0 <= i < |ns| => OpOf(size, ns[i]))
  }

  lemma {:induction false} AllReady(disk: seq<byte>, ns: seq<Notice>)
    requires AllWellFormed(disk, ns)
    ensures forall i :: 0 <= i < |ns| ==> Ready(|disk|, ns[i])
    decreases |ns|
  {
    hide WellFormed, DiskOf, OpOf, Apply, Ready, MemOf, Bytes;
    if ns != [] {
      NoticeServed(disk, ns[0]);
      AllReady(DiskOf(disk, ns[0]), ns[1..]);
      forall i | 0 <= i < |ns| ensures Ready(|disk|, ns[i]) {
        if i > 0 { assert ns[i] == ns[1..][i - 1]; }
      }
    }
  }

  lemma OpsOfRest(size: nat, ns: seq<Notice>)
    requires ns != [] && forall i :: 0 <= i < |ns| ==> Ready(size, ns[i])
    ensures forall i :: 0 <= i < |ns[1..]| ==> Ready(size, ns[1..][i])
    ensures OpsOf(size, ns)[0] == OpOf(size, ns[0]) && OpsOf(size, ns)[1..] == OpsOf(size, ns[1..])
  {
    hide Ready, OpOf;
  }

  /** Any sequence of properly set up requests leaves the disk as the block device has it. */
  lemma {:induction false} RequestsRefineBlockDevice(disk: seq<byte>, ns: seq<Notice>)
    requires AllWellFormed(disk, ns)
    ensures (forall i :: 0 <= i < |ns| ==> Ready(|disk|, ns[i])) && RunDisk(disk, ns) == ApplyAll(disk, OpsOf(|disk|, ns))
    decreases |ns|
  {
    hide WellFormed, DiskOf, OpOf, OpsOf, Apply, Ready, InRange, MemOf, Bytes;
    AllReady(disk, ns);
    if ns != [] {
      NoticeServed(disk, ns[0]);
      OpsOfRest(|disk|, ns);
      RequestsRefineBlockDevice(DiskOf(disk, ns[0]), ns[1..]);
    }
  }

  /** The operation leaves the bytes [start, start+len) alone. */
  predicate Spares(op: BlockOp, start: nat, len: nat)
  {
    op.WriteBlock? ==> op.start + |op.data| <= start || start + len <= op.start
  }

  lemma {:induction false} SparedSlice(disk: seq<byte>, ops: seq<BlockOp>, start: nat, len: nat)
    requires start + len <= |disk| && forall i :: 0 <= i < |ops| ==> InRange(ops[i], |disk|) && Spares(ops[i], start, len)
    ensures |ApplyAll(disk, ops)| == |disk| && ApplyAll(disk, ops)[start..start + len] == disk[start..start + len]
    decreases |ops|
  {
    if ops != [] {
      assert Apply(disk, ops[0])[start..start + len] == disk[start..start + len];
      SparedSlice(Apply(disk, ops[0]), ops[1..], start, len);
    }
  }

  /**
    A read returns the bytes of the last write to the same sectors, whatever requests for other
    sectors came in between.
   */
  lemma ReadAfterWrite(disk: seq<byte>, w: Notice, between: seq<Notice>, r: Notice)
    requires WellFormed(w.mem, disk, w.queue, w.n) && Ready(|disk|, w) && AllWellFormed(DiskOf(disk, w), between)
    requires WellFormed(r.mem, RunDisk(DiskOf(disk, w), between), r.queue, r.n) && Ready(|disk|, r)
    requires OpOf(|disk|, w).WriteBlock? && OpOf(|disk|, r) == ReadBlock(OpOf(|disk|, w).start, |OpOf(|disk|, w).data|)
    requires forall c :: c in between ==> Ready(|disk|, c) && Spares(OpOf(|disk|, c), OpOf(|disk|, w).start, |OpOf(|disk|, w).data|)
    ensures var d := RunDisk(DiskOf(disk, w), between);
      Bytes(MemOf(d, r), PlacesOf(r.mem, d, r.queue, r.n).r.buffer, |OpOf(|disk|, w).data|) == OpOf(|disk|, w).data
  {
    hide WellFormed, DiskOf, RunDisk, AllWellFormed, OpOf, Ready, MemOf, Bytes, ApplyAll, Spares, PlacesOf;
    var op := OpOf(|disk|, w);
    NoticeServed(disk, w);
    var d0 := DiskOf(disk, w);
    assert d0[op.start..op.start + |op.data|] == op.data;
    RequestsRefineBlockDevice(d0, between);
    SparedSlice(d0, OpsOf(|disk|, between), op.start, |op.data|);
    NoticeServed(RunDisk(d0, between), r);
  }

  // ----- the used index -----

  /** One queue throughout, and the guest leaves the used index alone between two notices. */
  ghost predicate SameQueue(disk: seq<byte>, ns: seq<Notice>, queue: nat, n: nat)
    decreases |ns|
  {
    ns == [] ||
      (ns[0].queue == queue && ns[0].n == n && SameQueue(DiskOf(disk, ns[0]), ns[1..], queue, n)
       && (|ns| > 1 ==> Half(ns[1].mem, Used(queue, n) + 2) == Half(MemOf(disk, ns[0]), Used(queue, n) + 2)))
  }

  /** Memory after the last request. */
  function LastMem(disk: seq<byte>, ns: seq<Notice>): Mem
    requires ns != []
    decreases |ns|
  {
    if |ns| == 1 then MemOf(disk, ns[0]) else LastMem(DiskOf(disk, ns[0]), ns[1..])
  }

  /** The used index counts the requests modulo 2^16. */
  lemma {:induction false} UsedIndexCounts(disk: seq<byte>, ns: seq<Notice>, queue: nat, n: nat)
    requires ns != [] && AllWellFormed(disk, ns) && SameQueue(disk, ns, queue, n)
    ensures Half(LastMem(disk, ns), Used(queue, n) + 2) == (Half(ns[0].mem, Used(queue, n) + 2) + |ns|) % 0x1_0000
    decreases |ns|
  {
    hide WellFormed, Ready, OpOf, PlacesOf, Bytes, Apply, Used, Half, DiskOf, MemOf;
    NoticeServed(disk, ns[0]);
    if |ns| > 1 {
      UsedIndexCounts(DiskOf(disk, ns[0]), ns[1..], queue, n);
      var k := Half(ns[0].mem, Used(queue, n) + 2);
      CountOn(k, |ns| - 1);
    }
  }

  lemma CountOn(k: nat, l: nat)
    ensures ((k + 1) % 0x1_0000 + l) % 0x1_0000 == (k + (l + 1)) % 0x1_0000
  {}

  // ----- where the used ring ends -----

  /** The eight bytes at `slot` belong to the `n` entries of the used ring. */
  predicate InsideRing(used: nat, n: nat, slot: nat) { used + 4 <= slot && slot + 8 <= used + 4 + 8 * n }

  /** The slot is the one the ring has for this index exactly while the index is below the ring's length. */
  lemma SlotExactly(m: Mem, used: nat, n: nat)
    requires n > 0
    ensures UsedSlot(m, used) == used + 4 + Half(m, used + 2) % n * 8 <==> Half(m, used + 2) < n
    ensures InsideRing(used, n, UsedSlot(m, used)) <==> Half(m, used + 2) < n
  {
    hide ReadN;
    SmallModulo(Half(m, used + 2), n);
  }

  lemma SmallModulo(k: nat, n: nat)
    requires n > 0
    ensures k % n == k <==> k < n
  {
    if k < n { ModUnique(k, n, 0, k); }
  }

  /** The used index that request number `i` finds. */
  lemma {:induction false} IndexAt(disk: seq<byte>, ns: seq<Notice>, queue: nat, n: nat, i: nat)
    requires AllWellFormed(disk, ns) && SameQueue(disk, ns, queue, n) && i < |ns|
    ensures Half(ns[i].mem, Used(queue, n) + 2) == (Half(ns[0].mem, Used(queue, n) + 2) + i) % 0x1_0000
    decreases i
  {
    hide WellFormed, Ready, OpOf, PlacesOf, Bytes, Apply, Used, Half, DiskOf, MemOf;
    if i > 0 {
      NoticeServed(disk, ns[0]);
      IndexAt(DiskOf(disk, ns[0]), ns[1..], queue, n, i - 1);
      CountOn(Half(ns[0].mem, Used(queue, n) + 2), i - 1);
    }
  }

  /** Request number `i` is entered inside the ring exactly while the index, which is not reduced, is below its length. */
  lemma EnteredInside(disk: seq<byte>, ns: seq<Notice>, queue: nat, n: nat, i: nat)
    requires AllWellFormed(disk, ns) && SameQueue(disk, ns, queue, n) && i < |ns| && n > 0
    ensures var used := Used(queue, n);
      InsideRing(used, n, UsedSlot(ns[i].mem, used)) <==> (Half(ns[0].mem, used + 2) + i) % 0x1_0000 < n
  {
    hide AllWellFormed, SameQueue, Used, Half, UsedSlot, InsideRing;
    IndexAt(disk, ns, queue, n, i);
    SlotExactly(ns[i].mem, Used(queue, n), n);
  }

  /** From an index of zero, the first `n` requests are entered in the ring and the next one right behind it. */
  lemma RingOverrun(disk: seq<byte>, ns: seq<Notice>, queue: nat, n: nat)
    requires AllWellFormed(disk, ns) && SameQueue(disk, ns, queue, n) && 0 < n < |ns| && n < 0x1_0000
    requires Half(ns[0].mem, Used(queue, n) + 2) == 0
    ensures forall i :: 0 <= i < n ==> InsideRing(Used(queue, n), n, UsedSlot(ns[i].mem, Used(queue, n)))
    ensures UsedSlot(ns[n].mem, Used(queue, n)) == Used(queue, n) + 4 + 8 * n
  {
    hide AllWellFormed, SameQueue, Used, Half, InsideRing;
    forall i | 0 <= i < n ensures InsideRing(Used(queue, n), n, UsedSlot(ns[i].mem, Used(queue, n))) {
      EnteredInside(disk, ns, queue, n, i);
    }
    IndexAt(disk, ns, queue, n, n);
  }

  // ----- the device registers -----

  const QUEUE_NUM_MAX := 8
  const MMIO_PAGE_SIZE := 0x1000_1028
  const MMIO_QUEUE_SEL := 0x1000_1030
  const MMIO_QUEUE_MAX := 0x1000_1034
  const MMIO_QUEUE_NUM := 0x1000_1038
  const MMIO_QUEUE_PFN := 0x1000_1040
  const MMIO_QUEUE_NOTIFY := 0x1000_1050
  const PLIC_CLAIM := 0x0C20_1004

  /** The last store covers part of the register. */
  predicate Touches(address: u64, width: nat, register: nat) { register < Wrap64(address + width) && address < register + 4 }

  /** `Broken` where the source fails an assertion or leaves the bounds of the disk image. */
  datatype Emulated = Broken | Emulated(mem: Mem, disk: seq<byte>, interrupt: bool)

  function QueueSelected(m: Mem, address: u64, width: nat): Mem
  {
    if Touches(address, width, MMIO_QUEUE_SEL)
    then WriteN(m, MMIO_QUEUE_MAX, if Read32(m, MMIO_QUEUE_SEL) == 0 then QUEUE_NUM_MAX else 0, 4)
    else m
  }

  /** VirtioEmulation after a store of `width` bytes at `address`. */
  function Emulate(m: Mem, disk: seq<byte>, address: u64, width: nat): Emulated
  {
    var m1 := QueueSelected(m, address, width);
    if !Touches(address, width, MMIO_QUEUE_NOTIFY) then Emulated(m1, disk, false)
    else
      var n := Read32(m1, MMIO_QUEUE_NUM);
      if Read32(m1, MMIO_QUEUE_NOTIFY) != 0 || n == 0 || n > QUEUE_NUM_MAX || Read32(m1, MMIO_PAGE_SIZE) != QUEUE_PAGE then Broken
      else
        match Serve(m1, disk, Read32(m1, MMIO_QUEUE_PFN) * QUEUE_PAGE % TWO32, n)
        case Rejected => Broken
        case Served(m2, d) => Emulated(WriteN(m2, PLIC_CLAIM, 1, 4), d, true)
  }
}
