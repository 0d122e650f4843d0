/**
  Laying out a program of mixed 16- and 32-bit instructions in memory (AddCmd and AddCmdCType of
  tests/load_assembler.cc), and fetching it again.
 */
module ProgramLayout {
  import opened Words
  import opened FlatMemory
  import opened PagedMemory
  import opened CpuModel
  import opened MachineMode
  import A = DataAccess
  import opened PageWalk

  /** An instruction word; its low two bits tell its length. */
  type Command = cmd: u32 | cmd % 4 == 3 || cmd < 0x1_0000

  function Size(cmds: seq<Command>): nat
  {
    if cmds == [] then 0 else Length(cmds[0]) + Size(cmds[1..])
  }

  /** Memory after the commands have been written one behind the other from `a` on. */
  function Laid(m: Mem, a: nat, cmds: seq<Command>): Mem
    decreases |cmds|
  {
    if cmds == [] then m else Laid(WriteN(m, a, cmds[0], Length(cmds[0])), a + Length(cmds[0]), cmds[1..])
  }

  /** Fetch `n` instructions in a row, the program counter moving by the length of each. */
  function FetchAll(s: State, pc: u64, n: nat): seq<u32>
    decreases n
  {
    if n == 0 then [] else
      var cmd := LoadCmd(s, pc).cmd;
      [cmd] + FetchAll(s, Wrap64(pc + Length(cmd)), n - 1)
  }

  lemma OffFurther(x: nat, a: nat, n: nat)
    requires Off(x, a) >= n
    ensures Off(x, a + n) == Off(x, a) - n
  {}

  lemma {:induction false} LaidElsewhere(m: Mem, a: nat, cmds: seq<Command>, x: nat)
    requires x < SIZE && Off(x, a) >= Size(cmds)
    ensures Laid(m, a, cmds)[x] == m[x]
    decreases |cmds|
  {
    hide WriteN, Off;
    if cmds != [] {
      var n := Length(cmds[0]);
      OffFurther(x, a, n);
      WriteAt(m, a, cmds[0], n, x);
      LaidElsewhere(WriteN(m, a, cmds[0], n), a + n, cmds[1..], x);
    }
  }

  lemma LaidReadBack(m: Mem, a: nat, cmds: seq<Command>, b: nat, n: nat)
    requires b + n == a && n + Size(cmds) <= SIZE
    ensures ReadN(Laid(m, a, cmds), b, n) == ReadN(m, b, n)
  {
    hide Laid, ReadN, Size;
    forall k | 0 <= k < n ensures ByteAt(Laid(m, a, cmds), b, k) == ByteAt(m, b, k) {
      OffBefore(a, b, n, k, Size(cmds));
      LaidElsewhere(m, a, cmds, (b + k) % SIZE);
    }
    ReadCongruent(Laid(m, a, cmds), m, b, b, n);
  }

  lemma OffBefore(a: nat, b: nat, n: nat, k: nat, size: nat)
    requires b + n == a && k < n && n + size <= SIZE
    ensures Off((b + k) % SIZE, a) >= size
  {}

  /** The word just written is fetched. */
  lemma FetchWritten(m: Mem, a: nat, cmd: Command)
    requires a % 2 == 0 && ReadN(m, a, Length(cmd)) == cmd
    ensures FetchWord(m, a) == cmd
  {
    hide ReadN;
    WordHalves(m, a);
  }

  lemma WrittenIsRead(m: Mem, a: nat, cmd: Command)
    ensures ReadN(WriteN(m, a, cmd, Length(cmd)), a, Length(cmd)) == cmd
  {
    hide ReadN, WriteN, Pow256;
    ReadOwnWrite(m, a, cmd, Length(cmd));
    PowValues();
    if cmd % 4 != 3 {
      assert cmd < 0x1_0000;
      assert Length(cmd) == 2;
      assert cmd % Pow256(2) == cmd;
    }
  }

  /** The program lies in memory, up to the length of memory. */
  predicate Holds(m: Mem, a: nat, cmds: seq<Command>)
    decreases |cmds|
  {
    cmds == [] || (FetchWord(m, a) == cmds[0] && Holds(m, a + Length(cmds[0]), cmds[1..]))
  }

  lemma {:induction false} LaidHolds(m: Mem, a: nat, cmds: seq<Command>)
    requires a % 2 == 0 && Size(cmds) <= SIZE
    ensures Holds(Laid(m, a, cmds), a, cmds)
    decreases |cmds|
  {
    hide ReadN, WriteN, FetchWord;
    if cmds != [] {
      var n := Length(cmds[0]);
      var m' := WriteN(m, a, cmds[0], n);
      WrittenIsRead(m, a, cmds[0]);
      LaidReadBack(m', a + n, cmds[1..], a, n);
      FetchWritten(Laid(m', a + n, cmds[1..]), a, cmds[0]);
      LaidHolds(m', a + n, cmds[1..]);
    }
  }

  lemma FetchAlias(m: Mem, a: nat, b: nat)
    requires a % SIZE == b % SIZE
    ensures FetchWord(m, a) == FetchWord(m, b)
  {
    ReadAlias(m, a, b, 2);
    ReadAlias(m, a, b, 4);
  }

  lemma WrapAgain(a: nat, n: nat)
    ensures Wrap64(Wrap64(a) + n) == Wrap64(a + n) && Wrap64(a) % SIZE == a % SIZE && (a % 2 == 0 ==> Wrap64(a) % 2 == 0)
  {
    var q, w := a / TWO64, a % TWO64;
    ModUnique(a + n, TWO64, q + (w + n) / TWO64, (w + n) % TWO64);
    ModUnique(a, SIZE, SIZE * q + w / SIZE, w % SIZE);
    ModUnique(a, 2, 0x8000_0000_0000_0000 * q + w / 2, w % 2);
  }

  lemma {:induction false} FetchesHeld(s: State, a: nat, cmds: seq<Command>)
    requires A.Bare(s) && a % 2 == 0
    requires Holds(s.mem, a, cmds)
    ensures FetchAll(s, Wrap64(a), |cmds|) == cmds
    decreases |cmds|
  {
    hide A.Bare, LoadCmd, FetchWord, Wrap64;
    if cmds != [] {
      WrapAgain(a, Length(cmds[0]));
      FetchUntranslated(s, Wrap64(a));
      FetchAlias(s.mem, Wrap64(a), a);
      FetchesHeld(s, a + Length(cmds[0]), cmds[1..]);
    }
  }

  /** Any program that fits in memory, laid out from any even address, is fetched as it was written. */
  lemma LayoutThenFetch(s: State, m: Mem, a: u64, cmds: seq<Command>)
    requires A.Bare(s) && a % 2 == 0
    requires Size(cmds) <= SIZE && s.mem == Laid(m, a, cmds)
    ensures FetchAll(s, a, |cmds|) == cmds
  {
    hide A.Bare, Laid, Holds, FetchAll;
    LaidHolds(m, a, cmds);
    FetchesHeld(s, a, cmds);
  }

  // ----- the loaders -----

  lemma OneByte(m: Mem, a: nat, v: nat)
    ensures WriteN(m, Wrap64(a), v % 0x100, 1) == m[a % SIZE := v % 0x100]
  {
    WrapAgain(a, 0);
  }

  lemma TwoBytes(m: Mem, a: nat, v: nat)
    ensures WriteN(m, a, v, 2) == m[a % SIZE := v % 0x100][(a + 1) % SIZE := v / 0x100 % 0x100]
  {
    assert WriteN(m[a % SIZE := v % 0x100], a + 1, v / 0x100, 1) == m[a % SIZE := v % 0x100][(a + 1) % SIZE := v / 0x100 % 0x100];
  }

  lemma Same64(a: u64)
    ensures Wrap64(a) == a
  {}

  method AddCmdCType(mem: MemoryWrapper, address: u64, cmd: u16) returns (next: u64)
    requires mem.Valid()
    modifies mem`contents, mem.mapping, mem.present
    ensures mem.Valid() && mem.contents == WriteN(old(mem.contents), address, cmd, 2) && next == Wrap64(address + 2)
  {
    hide WriteN, Represents, WellShaped, Wrap64;
    Same64(address);
    next := AddByte(mem, address, address, cmd % 0x100);
    next := AddByte(mem, address + 1, next, (cmd / 0x100) % 0x100);
    TwoBytes(old(mem.contents), address, cmd);
  }

  /** One `WriteByte(address++, ...)`; `a` is the address before it is reduced to 64 bits. */
  method AddByte(mem: MemoryWrapper, ghost a: nat, address: u64, data: byte) returns (next: u64)
    requires mem.Valid() && address == Wrap64(a)
    modifies mem`contents, mem.mapping, mem.present
    ensures mem.Valid() && mem.contents == old(mem.contents)[a % SIZE := data] && next == Wrap64(a + 1)
  {
    hide WriteN, Represents, WellShaped;
    OneByte(mem.contents, a, data);
    mem.WriteByte(address, data);
    next := Wrap64(address + 1);
    WrapAgain(a, 1);
  }

  method AddCmd(mem: MemoryWrapper, address: u64, cmd: u32) returns (next: u64)
    requires mem.Valid()
    modifies mem`contents, mem.mapping, mem.present
    ensures mem.Valid() && mem.contents == WriteN(old(mem.contents), address, cmd, 4) && next == Wrap64(address + 4)
  {
    hide WriteN, Represents, WellShaped, Wrap64;
    Same64(address);
    next := AddByte(mem, address, address, cmd % 0x100);
    next := AddByte(mem, address + 1, next, (cmd / 0x100) % 0x100);
    next := AddByte(mem, address + 2, next, (cmd / 0x1_0000) % 0x100);
    next := AddByte(mem, address + 3, next, (cmd / 0x100_0000) % 0x100);
    FourBytes(old(mem.contents), address, cmd);
  }

  lemma FourBytes(m: Mem, a: nat, v: nat)
    ensures WriteN(m, a, v, 4) ==
            m[a % SIZE := v % 0x100][(a + 1) % SIZE := v / 0x100 % 0x100]
             [(a + 2) % SIZE := v / 0x1_0000 % 0x100][(a + 3) % SIZE := v / 0x100_0000 % 0x100]
  {
    hide WriteN;
    WriteSplit(m, a, v, 2, 2);
    DropIsShift(v, 2);
    PowValues();
    TwoBytes(m, a, v);
    TwoBytes(WriteN(m, a, v, 2), a + 2, v / 0x1_0000);
    assert v / 0x1_0000 / 0x100 == v / 0x100_0000;
  }
}
