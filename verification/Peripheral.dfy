/**
  The peripherals (PeripheralEmulator.cpp): timer, the record of device stores, and the virtio disk.
 */
module Peripheral {
  import opened Words
  import opened FlatMemory
  import opened PagedMemory
  import opened VirtioDisk
  import CpuModel

  predicate OnPage(a: nat) { a % QUEUE_PAGE == 0 }

  class PeripheralEmulator {
    const memory: MemoryWrapper
    const diskImage: array<byte>
    var elapsedCycles: u64
    var nextCycle: u64
    var timercmpUpdate: bool
    var timerInterrupt: bool
    var virtioWrite: bool
    var virtioAddress: u64
    var virtioWidth: nat
    var virtioData: u64
    var virtioInterrupt: bool

    constructor (memory: MemoryWrapper, diskImage: array<byte>)
      ensures this.memory == memory && this.diskImage == diskImage
      ensures DeviceState() == CpuModel.Device(0, 0, true, false, false, 0, 0, 0) && !virtioInterrupt
    {
      this.memory, this.diskImage := memory, diskImage;
      elapsedCycles, nextCycle, timercmpUpdate, timerInterrupt := 0, 0, true, false;
      virtioWrite, virtioAddress, virtioWidth, virtioData, virtioInterrupt := false, 0, 0, 0, false;
    }

    function DeviceState(): CpuModel.Device
      reads this
    {
      CpuModel.Device(elapsedCycles, nextCycle, timercmpUpdate, timerInterrupt, virtioWrite, virtioAddress, virtioWidth, virtioData)
    }

    method TimerTick()
      requires memory.Valid()
      modifies this`elapsedCycles, this`nextCycle, this`timercmpUpdate, this`timerInterrupt
      ensures DeviceState() == CpuModel.Tick(old(DeviceState()), memory.contents)
    {
      hide Represents, WellShaped, ReadN;
      elapsedCycles := Wrap64(elapsedCycles + 1);
      if timercmpUpdate {
        nextCycle := memory.Read64(CpuModel.TIMER_CMP);
        timercmpUpdate := false;
      }
      if elapsedCycles == nextCycle {
        timerInterrupt := true;
      }
    }

    method ClearTimerInterrupt()
      modifies this`timerInterrupt
      ensures !timerInterrupt
    {
      timerInterrupt := false;
    }

    /** The copy of mtime in memory is brought up to date. */
    method MemoryMappedValueUpdate()
      requires memory.Valid()
      modifies memory`contents, memory.mapping, memory.present
      ensures memory.Valid() && memory.contents == WriteN(old(memory.contents), CpuModel.TIMER_MTIME, elapsedCycles, 8)
    {
      hide Represents, WellShaped, WriteN;
      memory.Write64(CpuModel.TIMER_MTIME, elapsedCycles);
    }

    method CheckDeviceWrite(address: u64, width: nat, data: u64)
      modifies this`virtioWrite, this`virtioAddress, this`virtioWidth, this`virtioData, this`timercmpUpdate
      ensures DeviceState() == CpuModel.CheckDeviceWrite(old(DeviceState()), address, width, data)
    {
      if CpuModel.VIRTIO_BASE < Wrap64(address + width) && address <= CpuModel.VIRTIO_END {
        virtioAddress := address;
        virtioData := data;
        virtioWidth := width;
        virtioWrite := true;
      }
      if CpuModel.TIMER_CMP < Wrap64(address + width) && address < CpuModel.TIMER_CMP + 8 {
        timercmpUpdate := true;
      }
    }

    // ----- the disk -----

    method ReadDescriptor(table: nat, index: u16) returns (d: Descriptor)
      requires memory.Valid() && OnPage(table)
      ensures d == ReadDesc(memory.contents, table, index)
    {
      hide Represents, WellShaped, ReadN;
      var address := table + index * DESC_SIZE;
      DescAligned(table, index);
      var addr := memory.Read64(address);
      var len := memory.Read32(address + 8);
      var flags := memory.Read16(address + 12);
      var next := memory.Read16(address + 14);
      d := Descriptor(addr, len, flags, next);
    }

    /** The loops of disc_access. */
    method DiscAccess(r: Request)
      requires memory.Valid() && r.Start + r.len <= diskImage.Length
      modifies memory`contents, memory.mapping, memory.present, diskImage
      ensures memory.Valid()
      ensures memory.contents == MemoryAfter(old(memory.contents), old(diskImage[..]), r)
      ensures diskImage[..] == DiskAfter(old(memory.contents), old(diskImage[..]), r)
    {
      hide Represents, WellShaped, WriteN, PutBytes;
      var start := r.Start;
      if r.write {
        CopyToDisk(start, r.buffer, r.len);
      } else {
        CopyToMemory(start, r.buffer, r.len);
      }
    }

    method CopyToDisk(start: nat, buffer: u64, len: nat)
      requires memory.Valid() && start + len <= diskImage.Length
      modifies diskImage
      ensures diskImage[..] == old(diskImage[..start]) + Bytes(memory.contents, buffer, len) + old(diskImage[start + len..])
    {
      hide Represents, WellShaped, Bytes;
      ghost var m, disk := memory.contents, diskImage[..];
      NothingCopied(m, disk, start, buffer);
      var offset := 0;
      while offset < len
        invariant 0 <= offset <= len
        invariant diskImage[..] == disk[..start] + Bytes(m, buffer, offset) + disk[start + offset..]
      {
        var data := memory.ReadByte(buffer + offset);
        diskImage[start + offset] := data;
        DiskStep(m, disk, start, buffer, offset);
        offset := offset + 1;
      }
    }

    method CopyToMemory(start: nat, buffer: u64, len: nat)
      requires memory.Valid() && start + len <= diskImage.Length
      modifies memory`contents, memory.mapping, memory.present
      ensures memory.Valid() && diskImage[..] == old(diskImage[..])
      ensures memory.contents == PutBytes(old(memory.contents), buffer, diskImage[start..start + len])
    {
      hide Represents, WellShaped, WriteN, PutBytes;
      ghost var m, disk := memory.contents, diskImage[..];
      NoBytes(m, buffer, disk[start..start]);
      var offset := 0;
      while offset < len
        invariant 0 <= offset <= len
        invariant memory.Valid() && diskImage[..] == disk
        invariant memory.contents == PutBytes(m, buffer, disk[start..start + offset])
      {
        memory.WriteByte(buffer + offset, diskImage[start + offset]);
        MemoryStep(m, buffer, disk, start, offset);
        offset := offset + 1;
      }
      assert diskImage[start..start + len] == disk[start..start + len];
    }

    /** process_disc_access; false where the source fails. */
    method ProcessDiscAccess(table: nat, head: u16) returns (ok: bool)
      requires memory.Valid() && OnPage(table)
      modifies memory`contents, memory.mapping, memory.present, diskImage
      ensures memory.Valid()
      ensures var p := FirstTwo(old(memory.contents), diskImage.Length, table, head);
        match p
        case Malformed => !ok
        case Parsed(r) =>
          r.Start + r.len <= old(|diskImage[..]|) &&
          var m1 := MemoryAfter(old(memory.contents), old(diskImage[..]), r);
          var status := ReadDesc(m1, table, r.status);
          ok == StatusOk(status)
          && (ok ==> memory.contents == WriteN(m1, status.addr, 0, 1)
                     && diskImage[..] == DiskAfter(old(memory.contents), old(diskImage[..]), r))
    {
      hide Represents, WellShaped, WriteN, ReadN, MemoryAfter, DiskAfter, StatusOk;
      var desc := ReadDescriptor(table, head);
      if desc.addr % 8 != 0 { return false; }
      var kind := memory.Read32(desc.addr);
      HeaderAligned(desc.addr);
      var sector := memory.Read64(desc.addr + 8);
      var writeAccess := kind == 1;
      if desc.flags % 2 != 1 { return false; }
      desc := ReadDescriptor(table, desc.next);
      if ((desc.flags / 2) % 2 == 0) != writeAccess { return false; }
      var r := Request(writeAccess, sector, desc.addr, desc.len, desc.next);
      if r.Start + r.len > diskImage.Length { return false; }
      DiscAccess(r);
      desc := ReadDescriptor(table, r.status);
      if !StatusOk(desc) { return false; }
      memory.WriteByte(desc.addr, 0);
      ok := true;
    }

    method GetDescIndex(queue: nat, n: nat) returns (index: u16)
      requires memory.Valid() && OnPage(queue) && n > 0
      ensures index == Head(memory.contents, queue, n)
    {
      hide Represents, WellShaped, ReadN;
      var available := queue + n * DESC_SIZE;
      AvailAligned(queue, n, 0);
      var idx := memory.Read16(available + 2);
      AvailAligned(queue, n, idx % n);
      index := memory.Read16(available + 4 + idx % n * 2);
    }

    method ProcessUsedBuffer(used: nat, index: u16)
      requires memory.Valid() && OnPage(used)
      modifies memory`contents, memory.mapping, memory.present
      ensures memory.Valid() && memory.contents == Enter(old(memory.contents), used, index)
    {
      hide Represents, WellShaped, WriteN, ReadN;
      hide Half, NextIndex, OnPage;
      SlotAligned(used, 0);
      var current := memory.Read16(used + 2);
      SlotAligned(used, current);
      var k: nat := current;
      var slot: nat := used + 4 + k * 8;
      memory.Write32(slot, index);
      memory.Write32(slot + 4, 3);
      memory.Write16(used + 2, NextIndex(current));
    }

    method VirtioDiskAccess(queue: nat, n: nat) returns (ok: bool)
      requires memory.Valid() && OnPage(queue) && n > 0
      modifies memory`contents, memory.mapping, memory.present, diskImage
      ensures memory.Valid()
      ensures match Serve(old(memory.contents), old(diskImage[..]), queue, n)
        case Rejected => !ok
        case Served(m, d) => ok && memory.contents == m && diskImage[..] == d
    {
      hide Represents, WellShaped, WriteN, ReadN, MemoryAfter, DiskAfter, StatusOk, FirstTwo, ReadDesc, Enter, Head;
      var available := queue + n * DESC_SIZE;
      var used := (available + 2 * (2 + n) + QUEUE_PAGE - 1) / QUEUE_PAGE * QUEUE_PAGE;
      PageAligned((available + 2 * (2 + n) + QUEUE_PAGE - 1) / QUEUE_PAGE);
      var index := GetDescIndex(queue, n);
      ok := ProcessDiscAccess(queue, index);
      if ok { ProcessUsedBuffer(used, index); }
    }

    /** Called after every instruction; false where the source fails. */
    method VirtioEmulation() returns (ok: bool)
      requires memory.Valid()
      modifies this`virtioWrite, this`virtioInterrupt, memory`contents, memory.mapping, memory.present, diskImage
      ensures memory.Valid() && !virtioWrite
      ensures if !old(virtioWrite) then ok && memory.contents == old(memory.contents) && diskImage[..] == old(diskImage[..]) && virtioInterrupt == old(virtioInterrupt)
        else match Emulate(old(memory.contents), old(diskImage[..]), virtioAddress, virtioWidth)
          case Broken => !ok
          case Emulated(m, d, interrupt) =>
            ok && memory.contents == m && diskImage[..] == d && virtioInterrupt == (old(virtioInterrupt) || interrupt)
    {
      hide Represents, WellShaped, WriteN, ReadN, Serve;
      if !virtioWrite { return true; }
      virtioWrite := false;
      if MMIO_QUEUE_SEL < Wrap64(virtioAddress + virtioWidth) && virtioAddress < MMIO_QUEUE_SEL + 4 {
        var queueSel := memory.Read32(MMIO_QUEUE_SEL);
        var queueNumMax := if queueSel == 0 then QUEUE_NUM_MAX else 0;
        memory.Write32(MMIO_QUEUE_MAX, queueNumMax);
      }
      if Wrap64(virtioAddress + virtioWidth) <= MMIO_QUEUE_NOTIFY || MMIO_QUEUE_NOTIFY + 4 <= virtioAddress {
        return true;
      }
      var queueNumber := memory.Read32(MMIO_QUEUE_NOTIFY);
      if queueNumber != 0 { return false; }
      var queueNum := memory.Read32(MMIO_QUEUE_NUM);
      if queueNum == 0 || queueNum > QUEUE_NUM_MAX { return false; }
      var pageSize := memory.Read32(MMIO_PAGE_SIZE);
      if pageSize != QUEUE_PAGE { return false; }
      var pfn := memory.Read32(MMIO_QUEUE_PFN);
      QueueAligned(pfn);
      ok := VirtioDiskAccess(pfn * pageSize % TWO32, queueNum);
      if !ok { return; }
      memory.Write32(PLIC_CLAIM, 1);
      virtioInterrupt := true;
    }
  }

  lemma DescAligned(table: nat, index: nat)
    requires OnPage(table)
    ensures (table + index * DESC_SIZE) % 8 == 0 && (table + index * DESC_SIZE + 8) % 4 == 0
    ensures (table + index * DESC_SIZE + 12) % 2 == 0 && (table + index * DESC_SIZE + 14) % 2 == 0
  {
    var q := table / QUEUE_PAGE;
    var a := table + index * DESC_SIZE;
    ModUnique(a, 8, 512 * q + 2 * index, 0);
    ModUnique(a + 8, 4, 1024 * q + 4 * index + 2, 0);
    ModUnique(a + 12, 2, 2048 * q + 8 * index + 6, 0);
    ModUnique(a + 14, 2, 2048 * q + 8 * index + 7, 0);
  }

  lemma HeaderAligned(a: nat)
    requires a % 8 == 0
    ensures a % 4 == 0 && (a + 8) % 8 == 0
  {}

  lemma AvailAligned(queue: nat, n: nat, i: nat)
    requires OnPage(queue)
    ensures (queue + n * DESC_SIZE + 2) % 2 == 0 && (queue + n * DESC_SIZE + 4 + i * 2) % 2 == 0
  {
    var q := queue / QUEUE_PAGE;
    ModUnique(queue + n * DESC_SIZE + 2, 2, 2048 * q + 8 * n + 1, 0);
    ModUnique(queue + n * DESC_SIZE + 4 + i * 2, 2, 2048 * q + 8 * n + 2 + i, 0);
  }

  lemma SlotAligned(used: nat, k: nat)
    requires OnPage(used)
    ensures (used + 2) % 2 == 0 && (used + 4 + k * 8) % 4 == 0 && (used + 4 + k * 8 + 4) % 4 == 0
  {
    var q := used / QUEUE_PAGE;
    ModUnique(used + 2, 2, 2048 * q + 1, 0);
    ModUnique(used + 4 + k * 8, 4, 1024 * q + 1 + 2 * k, 0);
    ModUnique(used + 4 + k * 8 + 4, 4, 1024 * q + 2 + 2 * k, 0);
  }

  lemma PageAligned(k: nat)
    ensures OnPage(k * QUEUE_PAGE)
  {
    ModUnique(k * QUEUE_PAGE, QUEUE_PAGE, k, 0);
  }

  lemma QueueAligned(pfn: u32)
    ensures OnPage(pfn * QUEUE_PAGE % TWO32)
  {
    var q := pfn / 0x10_0000;
    ModUnique(pfn * QUEUE_PAGE, TWO32, q, pfn % 0x10_0000 * QUEUE_PAGE);
    PageAligned(pfn % 0x10_0000);
  }

  lemma NothingCopied(m: Mem, disk: seq<byte>, start: nat, buffer: nat)
    requires start <= |disk|
    ensures disk == disk[..start] + Bytes(m, buffer, 0) + disk[start + 0..]
  {}

  lemma DiskStep(m: Mem, disk: seq<byte>, start: nat, buffer: nat, k: nat)
    requires start + k < |disk|
    ensures (disk[..start] + Bytes(m, buffer, k) + disk[start + k..])[start + k := m[(buffer + k) % SIZE]]
            == disk[..start] + Bytes(m, buffer, k + 1) + disk[start + (k + 1)..]
  {
    assert Bytes(m, buffer, k + 1) == Bytes(m, buffer, k) + [m[(buffer + k) % SIZE]];
  }

  lemma MemoryStep(m: Mem, a: nat, disk: seq<byte>, start: nat, k: nat)
    requires start + k < |disk|
    ensures WriteN(PutBytes(m, a, disk[start..start + k]), a + k, disk[start + k], 1) == PutBytes(m, a, disk[start..start + (k + 1)])
  {
    var bs := disk[start..start + (k + 1)];
    assert bs[..|bs| - 1] == disk[start..start + k];
    assert disk[start + k] % 0x100 == disk[start + k];
  }
}
