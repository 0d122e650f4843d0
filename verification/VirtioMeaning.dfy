/**
  Requests read off the bytes of the virtqueue: the available index, its ring, the three descriptors of
  a chain and the header, each at its place counted from the start of the queue.
 */
module VirtioMeaning {
  import opened Words
  import opened FlatMemory
  import V = VirtioDisk

  /** The fields of the chain that starts at descriptor `h` of the table at `queue`. */
  datatype Chain = Chain(header: nat, kind: nat, sector: nat, flags0: nat, second: nat,
                         buffer: nat, len: nat, flags1: nat, third: nat, status: nat, len2: nat, flags2: nat)

  /** Sixteen bytes a descriptor: address, length at 8, flags at 12, next at 14. */
  function ChainAt(m: Mem, queue: nat, h: nat): Chain
  {
    var a := queue + 16 * h;
    var header, second := ReadN(m, a, 8), ReadN(m, a + 14, 2);
    var b := queue + 16 * second;
    var third := ReadN(m, b + 14, 2);
    var c := queue + 16 * third;
    Chain(header, ReadN(m, header, 4), ReadN(m, header + 8, 8), ReadN(m, a + 12, 2), second,
          ReadN(m, b, 8), ReadN(m, b + 8, 4), ReadN(m, b + 12, 2), third,
          ReadN(m, c, 8), ReadN(m, c + 8, 4), ReadN(m, c + 12, 2))
  }

  /** A header of type 1 asks to write. */
  predicate Writes(c: Chain) { c.kind == 1 }

  function Start(c: Chain): nat { if c.len == 0 then 0 else c.sector * 512 % TWO64 }

  /**
    Header and data are followed by another descriptor, the device may write the data exactly if it is
    read from the disk, the third descriptor is one byte the device may write, and ends the chain.
   */
  predicate Proper(c: Chain)
  {
    && c.header % 8 == 0 && c.flags0 % 2 == 1
    && ((c.flags1 / 2) % 2 == 1 <==> !Writes(c))
    && c.len2 == 1 && (c.flags2 / 2) % 2 == 1 && c.flags2 % 2 == 0
  }

  /** Where the used ring begins: on the first page boundary behind the available ring. */
  predicate UsedAt(queue: nat, n: nat, used: nat)
  {
    used % 4096 == 0 && queue + 18 * n + 4 <= used < queue + 18 * n + 4 + 4096
  }

  /** The available index is `i`, and slot `i % n` of its ring holds `h`. */
  predicate Published(m: Mem, queue: nat, n: nat, i: nat, h: nat)
    requires n > 0
  {
    ReadN(m, queue + 16 * n + 2, 2) == i && ReadN(m, queue + 16 * n + 4 + 2 * (i % n), 2) == h
  }

  /** The entry of the used ring for the used index, which is not reduced. */
  function SlotAt(m: Mem, used: nat): nat { used + 4 + 8 * ReadN(m, used + 2, 2) }

  /** The places the device writes to do not overlap, nor the data read the status descriptor. */
  predicate Clear(m: Mem, queue: nat, used: nat, c: Chain)
  {
    var slot := SlotAt(m, used);
    && Apart(c.status, 1, slot, 8) && Apart(c.status, 1, used + 2, 2) && Apart(slot, 8, used + 2, 2)
    && (!Writes(c) ==>
          && Apart(c.buffer, c.len, c.status, 1) && Apart(c.buffer, c.len, slot, 8)
          && Apart(c.buffer, c.len, used + 2, 2) && Apart(c.buffer, c.len, queue + 16 * c.third, 16))
  }

  // ----- the functions of the model read the same bytes -----

  lemma HeadIs(m: Mem, queue: nat, n: nat, i: nat, h: nat)
    requires n > 0 && Published(m, queue, n, i, h)
    ensures V.Head(m, queue, n) == h
  {
    hide ReadN;
  }

  lemma UsedIs(queue: nat, n: nat, used: nat)
    requires UsedAt(queue, n, used)
    ensures V.Used(queue, n) == used
  {
    var x, k := queue + 18 * n + 4 + 4095, used / 4096;
    ModUnique(x, 4096, k, x - used);
  }

  lemma SlotIs(m: Mem, used: nat)
    ensures V.UsedSlot(m, used) == SlotAt(m, used)
  {
    hide ReadN;
  }

  lemma DescIs(m: Mem, queue: nat, h: u16)
    ensures var d, a := V.ReadDesc(m, queue, h), queue + 16 * h;
      d.addr == ReadN(m, a, 8) && d.len == ReadN(m, a + 8, 4) && d.flags == ReadN(m, a + 12, 2) && d.next == ReadN(m, a + 14, 2)
  {
    hide ReadN;
  }

  /** What the chain asks for, as the model has it. */
  predicate Asks(c: Chain, r: V.Request)
  {
    r.write == Writes(c) && r.sector == c.sector && r.buffer == c.buffer && r.len == c.len && r.status == c.third
  }

  lemma ChainParses(m: Mem, disk: nat, queue: nat, h: u16)
    ensures var c, p := ChainAt(m, queue, h), V.FirstTwo(m, disk, queue, h);
      && (p.Parsed? <==> c.header % 8 == 0 && c.flags0 % 2 == 1 && ((c.flags1 / 2) % 2 == 1 <==> !Writes(c)) && Start(c) + c.len <= disk)
      && (p.Parsed? ==> Asks(c, p.request) && p.request.Start == Start(c))
  {
    hide ReadN, V.ReadDesc;
    DescIs(m, queue, h);
    DescIs(m, queue, V.ReadDesc(m, queue, h).next);
  }

  lemma StatusIs(m: Mem, queue: nat, h: u16)
    ensures var c := ChainAt(m, queue, h);
      c.third < 0x1_0000 && var d := V.ReadDesc(m, queue, c.third);
      d.addr == c.status && (V.StatusOk(d) <==> c.len2 == 1 && (c.flags2 / 2) % 2 == 1 && c.flags2 % 2 == 0)
  {
    hide ReadN, V.ReadDesc;
    DescIs(m, queue, h);
    var d := V.ReadDesc(m, queue, h);
    DescIs(m, queue, d.next);
    var e := V.ReadDesc(m, queue, d.next);
    DescIs(m, queue, e.next);
    TwoFlags(V.ReadDesc(m, queue, e.next).flags);
  }

  lemma TwoFlags(x: nat)
    ensures x % 4 == 2 <==> (x / 2) % 2 == 1 && x % 2 == 0
  {}

  /** A request is properly set up exactly if the published chain is. */
  lemma WellFormedExactly(m: Mem, disk: seq<byte>, queue: nat, n: nat, used: nat, i: nat, h: u16)
    requires n > 0 && Published(m, queue, n, i, h) && UsedAt(queue, n, used)
    ensures var c := ChainAt(m, queue, h);
      && (V.WellFormed(m, disk, queue, n) <==> Proper(c) && Start(c) + c.len <= |disk| && Clear(m, queue, used, c))
      && (V.WellFormed(m, disk, queue, n) ==>
            var p := V.PlacesOf(m, disk, queue, n);
            Asks(c, p.r) && p.r.Start == Start(c) && p.statusByte == c.status && p.used == used && p.slot == SlotAt(m, used))
  {
    hide ReadN, V.ReadDesc, V.FirstTwo, V.StatusOk, V.Head, V.Used, V.UsedSlot, Apart, ChainAt, Published, SlotAt, UsedAt, Start;
    HeadIs(m, queue, n, i, h);
    UsedIs(queue, n, used);
    SlotIs(m, used);
    ChainParses(m, |disk|, queue, h);
    StatusIs(m, queue, h);
  }

  /** Address `x` is none the request writes to. */
  predicate Spared(x: nat, m: Mem, used: nat, c: Chain)
  {
    && (Writes(c) || Off(x, c.buffer) >= c.len) && Off(x, c.status) >= 1
    && Off(x, SlotAt(m, used)) >= 8 && Off(x, used + 2) >= 2
  }

  /**
    Serving the published chain `h`: the data moves between its buffer and its sectors, its status byte
    becomes zero, the used ring has an entry for `h`, its index counts on, and nothing else changes.
   */
  lemma ServePublished(m: Mem, disk: seq<byte>, queue: nat, n: nat, used: nat, i: nat, h: u16)
    requires n > 0 && Published(m, queue, n, i, h) && UsedAt(queue, n, used)
    requires var c := ChainAt(m, queue, h); Proper(c) && Start(c) + c.len <= |disk| && Clear(m, queue, used, c)
    ensures var c, o := ChainAt(m, queue, h), V.Serve(m, disk, queue, n);
      var start, end := Start(c), Start(c) + c.len;
      && o.Served? && |o.disk| == |disk|
      && (if Writes(c) then o.disk[start..end] == V.Bytes(m, c.buffer, c.len) else V.Bytes(o.mem, c.buffer, c.len) == disk[start..end])
      && o.disk[..start] == disk[..start] && o.disk[end..] == disk[end..] && (!Writes(c) ==> o.disk == disk)
      && o.mem[c.status % SIZE] == 0
      && ReadN(o.mem, SlotAt(m, used), 4) == h && ReadN(o.mem, SlotAt(m, used) + 4, 4) == 3
      && ReadN(o.mem, used + 2, 2) == (ReadN(m, used + 2, 2) + 1) % 0x1_0000
      && forall x :: 0 <= x < SIZE && Spared(x, m, used, c) ==> o.mem[x] == m[x]
  {
    hide ReadN, ChainAt, Published, UsedAt, SlotAt, Start, Clear, Proper, V.WellFormed, V.PlacesOf, V.Serve, V.Head, V.Bytes, Off;
    WellFormedExactly(m, disk, queue, n, used, i, h);
    HeadIs(m, queue, n, i, h);
    V.ServeWellFormed(m, disk, queue, n);
  }

  // ----- a list of published chains is a list of block operations -----

  /** What the published chain asks of a disk. */
  function OpAt(m: Mem, queue: nat, h: nat): V.BlockOp
  {
    var c := ChainAt(m, queue, h);
    if Writes(c) then V.WriteBlock(Start(c), V.Bytes(m, c.buffer, c.len)) else V.ReadBlock(Start(c), c.len)
  }

  /**
    The driver's list of heads: notice k finds chain `heads[k]` in the slot for the available index, which
    goes on from `i` modulo 2^16. What else the guest does between two notices is its own business.
   */
  predicate Publishes(ns: seq<V.Notice>, heads: seq<u16>, i: nat)
  {
    |ns| == |heads| && forall k :: 0 <= k < |ns| ==> PublishesAt(ns[k], heads[k], (i + k) % 0x1_0000)
  }

  predicate PublishesAt(c: V.Notice, h: u16, i: nat) { c.n > 0 && Published(c.mem, c.queue, c.n, i, h) }

  function OpsAt(ns: seq<V.Notice>, heads: seq<u16>): (ops: seq<V.BlockOp>)
    requires |ns| == |heads|
    ensures |ops| == |ns|
  {
    seq(|ns|, k requires 0 <= k < |ns| => OpAt(ns[k].mem, ns[k].queue, heads[k]))
  }

  lemma OpIs(size: nat, c: V.Notice, i: nat, h: u16)
    requires V.Ready(size, c) && PublishesAt(c, h, i)
    ensures V.OpOf(size, c) == OpAt(c.mem, c.queue, h)
  {
    hide ReadN, ChainAt, Published, Start, V.FirstTwo, V.Head, V.Bytes;
    HeadIs(c.mem, c.queue, c.n, i, h);
    ChainParses(c.mem, size, c.queue, h);
  }

  /** The disk does the published operations, in the order of the list. */
  lemma PublishedRefineBlockDevice(disk: seq<byte>, ns: seq<V.Notice>, heads: seq<u16>, i: nat)
    requires V.AllWellFormed(disk, ns) && Publishes(ns, heads, i)
    ensures (forall k :: 0 <= k < |ns| ==> V.InRange(OpsAt(ns, heads)[k], |disk|))
            && V.RunDisk(disk, ns) == V.ApplyAll(disk, OpsAt(ns, heads))
  {
    hide V.AllWellFormed, V.Ready, V.OpOf, OpAt, V.RunDisk, V.ApplyAll, PublishesAt, V.InRange;
    V.RequestsRefineBlockDevice(disk, ns);
    forall k | 0 <= k < |ns| ensures V.OpOf(|disk|, ns[k]) == OpAt(ns[k].mem, ns[k].queue, heads[k]) {
      OpIs(|disk|, ns[k], (i + k) % 0x1_0000, heads[k]);
    }
    assert V.OpsOf(|disk|, ns) == OpsAt(ns, heads);
  }

  // ----- the registers -----

  /**
    A word stored to a register of the disk: queue select answers with the length of queue 0, queue notify
    starts a request of queue 0 in the page given, any other register does nothing.
   */
  lemma RegisterStore(m: Mem, disk: seq<byte>, register: u64)
    requires 0x1000_1000 <= register <= 0x1000_10FC && register % 4 == 0
    ensures var e := V.Emulate(m, disk, register, 4);
      if register == 0x1000_1030 then
        e == V.Emulated(WriteN(m, 0x1000_1034, if ReadN(m, 0x1000_1030, 4) == 0 then 8 else 0, 4), disk, false)
      else if register == 0x1000_1050 then
        var n, page := ReadN(m, 0x1000_1038, 4), ReadN(m, 0x1000_1040, 4);
        if ReadN(m, 0x1000_1050, 4) == 0 && 0 < n <= 8 && ReadN(m, 0x1000_1028, 4) == 4096 then
          var o := V.Serve(m, disk, page * 4096 % TWO32, n);
          e == if o.Served? then V.Emulated(WriteN(o.mem, 0x0C20_1004, 1, 4), o.disk, true) else V.Broken
        else e == V.Broken
      else e == V.Emulated(m, disk, false)
  {
    hide ReadN, WriteN, V.Serve;
  }
}
