/**
  LoadAssemblerSort of tests/load_assembler.cc: it writes the sort program into memory, and what it
  writes is the program that `SortProgram` proves to sort.
 */
module SortLoader {
  import opened Words
  import opened FlatMemory
  import opened PagedMemory
  import opened Decoder
  import opened CpuModel
  import opened MachineMode
  import opened ProgramLayout
  import opened SortProgram
  import opened Cpu
  import InsertionSort
  import P = Privileged

  lemma WordIsLong(k: nat)
    requires k < LENGTH
    ensures Code(k) % 4 == 3
  {
    hide Instruction, Assemble, Assemblable, Encodable, Value32;
    Encodes(k);
    AssembledIsLong(Instruction(k));
  }

  function SortCommand(k: nat): Command
    requires k < LENGTH
  {
    WordIsLong(k);
    Code(k)
  }

  /** The first `k` instructions of the program. */
  function SortCommands(k: nat): (cmds: seq<Command>)
    requires k <= LENGTH
    ensures |cmds| == k
  {
    seq(k, i requires 0 <= i < k => SortCommand(i))
  }

  lemma {:induction false} LaidAppend(m: Mem, a: nat, cmds: seq<Command>, cmd: Command)
    ensures Laid(m, a, cmds + [cmd]) == WriteN(Laid(m, a, cmds), a + Size(cmds), cmd, Length(cmd))
    decreases |cmds|
  {
    hide WriteN, Length;
    if cmds == [] {
      assert cmds + [cmd] == [cmd] && [cmd][1..] == [];
      assert Laid(m, a, [cmd]) == Laid(WriteN(m, a, cmd, Length(cmd)), a + Length(cmd), []);
    } else {
      assert (cmds + [cmd])[1..] == cmds[1..] + [cmd];
      LaidAppend(WriteN(m, a, cmds[0], Length(cmds[0])), a + Length(cmds[0]), cmds[1..], cmd);
    }
  }

  lemma {:induction false} SizeAppend(cmds: seq<Command>, cmd: Command)
    ensures Size(cmds + [cmd]) == Size(cmds) + Length(cmd)
  {
    if cmds == [] {
      assert cmds + [cmd] == [cmd] && [cmd][1..] == [];
    } else {
      assert (cmds + [cmd])[1..] == cmds[1..] + [cmd];
      SizeAppend(cmds[1..], cmd);
    }
  }

  lemma {:induction false} SortSize(k: nat)
    requires k <= LENGTH
    ensures Size(SortCommands(k)) == 4 * k
    decreases k
  {
    hide Code;
    if k > 0 {
      SortSize(k - 1);
      WordIsLong(k - 1);
      assert SortCommands(k) == SortCommands(k - 1) + [SortCommand(k - 1)];
      SizeAppend(SortCommands(k - 1), SortCommand(k - 1));
    }
  }

  /** Memory `m` with the first `k` instructions of the program laid out from `a` on. */
  function Prefix(m: Mem, a: nat, k: nat): Mem
    requires k <= LENGTH
  {
    Laid(m, a, SortCommands(k))
  }

  lemma PrefixNext(m: Mem, a: nat, k: nat)
    requires k < LENGTH
    ensures WriteN(Prefix(m, a, k), Wrap64(a + 4 * k), Code(k), 4) == Prefix(m, a, k + 1)
  {
    hide Code, WriteN, Laid, Size, Wrap64;
    WordIsLong(k);
    SortSize(k);
    assert SortCommands(k + 1) == SortCommands(k) + [SortCommand(k)];
    LaidAppend(m, a, SortCommands(k), SortCommand(k));
    WrapAgain(a + 4 * k, 0);
    WriteAlias(Prefix(m, a, k), Wrap64(a + 4 * k), a + 4 * k, Code(k), 4);
  }

  lemma PrefixFirst(m: Mem, a: nat)
    ensures Prefix(m, a, 0) == m
  {
    hide Code;
  }

  /** An instruction as the assembler encodes it. */
  function Asm(d: Decoded): u32 { Value32(Assemble(d)) }

  /** `address = AddCmd(mem, address, cmd)`, where `cmd` is instruction `k`. */
  method AddSortCmd(mem: MemoryWrapper, address: u64, cmd: u32, ghost m: Mem, ghost a: nat, ghost k: nat) returns (next: u64)
    requires mem.Valid() && k < LENGTH && cmd == Code(k)
    requires address == Wrap64(a + 4 * k) && mem.contents == Prefix(m, a, k)
    modifies mem`contents, mem.mapping, mem.present
    ensures mem.Valid() && mem.contents == Prefix(m, a, k + 1) && next == Wrap64(a + 4 * (k + 1))
  {
    hide Code, Prefix, WriteN, Represents, WellShaped, Wrap64;
    PrefixNext(m, a, k);
    next := AddCmd(mem, address, cmd);
    WrapAgain(a + 4 * k, 4);
  }

  method LoadAssemblerSort(mem: MemoryWrapper, address: u64) returns (next: u64)
    requires mem.Valid()
    modifies mem`contents, mem.mapping, mem.present
    ensures mem.Valid() && mem.contents == Laid(old(mem.contents), address, SortCommands(LENGTH))
    ensures next == Wrap64(address + 4 * LENGTH)
  {
    hide Prefix, Laid, Instruction, Assemble, Value32, Wrap64, Represents, WellShaped;
    ghost var m := mem.contents;
    PrefixFirst(m, address);
    WrapSmall(address);
    Listing(); RestOfListing();
    next := AddSortCmd(mem, address, Asm(Addi(A3, A0, 4)), m, address, 0);
    next := AddSortCmd(mem, next, Asm(Addi(A4, X0, 1)), m, address, 1);
    // Outer loop.
    next := AddSortCmd(mem, next, Asm(BranchTo(BLTU, A4, A1, 8)), m, address, 2);
    // Exit of the outer loop.
    next := AddSortCmd(mem, next, Asm(Decoded(JALR, X0, X1, 0, 0)), m, address, 3);
    // The outer loop goes on.
    next := AddSortCmd(mem, next, Asm(Decoded(LW, A6, A3, 0, 0)), m, address, 4);
    next := AddSortCmd(mem, next, Asm(Addi(A2, A3, 0)), m, address, 5);
    next := AddSortCmd(mem, next, Asm(Addi(A5, A4, 0)), m, address, 6);
    // Inner loop.
    next := AddSortCmd(mem, next, Asm(Decoded(LW, A7, A2, 0, 0xFFFF_FFFC)), m, address, 7);
    next := AddSortCmd(mem, next, Asm(BranchTo(BGE, A6, A7, 20)), m, address, 8);
    next := AddSortCmd(mem, next, Asm(Decoded(SW, 0, A2, A7, 0)), m, address, 9);
    next := AddSortCmd(mem, next, Asm(Addi(A5, A5, 0xFFFF_FFFF)), m, address, 10);
    next := AddSortCmd(mem, next, Asm(Addi(A2, A2, 0xFFFF_FFFC)), m, address, 11);
    next := AddSortCmd(mem, next, Asm(BranchTo(BNE, A5, X0, 0xFFFF_FFEC)), m, address, 12);
    // Exit of the inner loop.
    next := AddSortCmd(mem, next, Asm(Decoded(SLLI, A5, A5, 0, 2)), m, address, 13);
    next := AddSortCmd(mem, next, Asm(Decoded(ADD, A5, A0, A5, 0)), m, address, 14);
    next := AddSortCmd(mem, next, Asm(Decoded(SW, 0, A5, A6, 0)), m, address, 15);
    next := AddSortCmd(mem, next, Asm(Addi(A4, A4, 1)), m, address, 16);
    next := AddSortCmd(mem, next, Asm(Addi(A3, A3, 4)), m, address, 17);
    next := AddSortCmd(mem, next, Asm(Decoded(JAL, X0, 0, 0, 0xFFFF_FFC0)), m, address, 18);
    PrefixLast(m, address);
  }

  lemma RestOfListing()
    ensures Instruction(13) == Decoded(SLLI, A5, A5, 0, 2) && Instruction(14) == Decoded(ADD, A5, A0, A5, 0)
    ensures Instruction(18) == Decoded(JAL, X0, 0, 0, 0xFFFF_FFC0)
  {}

  lemma PrefixLast(m: Mem, a: nat)
    ensures Prefix(m, a, LENGTH) == Laid(m, a, SortCommands(LENGTH))
  {}

  lemma WrapSmall(a: u64)
    ensures Wrap64(a + 4 * 0) == a
  {}

  lemma {:induction false} PrefixWord(m: Mem, a: nat, k: nat, i: nat)
    requires i < k <= LENGTH && a + 4 * LENGTH <= SIZE
    ensures Read32(Prefix(m, a, k), a + 4 * i) == Code(i)
    decreases k
  {
    hide Code, WriteN, ReadN, Prefix, Apart, Wrap64;
    PrefixNext(m, a, k - 1);
    WrapBelow(a + 4 * (k - 1));
    if i == k - 1 {
      WordWritten(Prefix(m, a, i), a + 4 * i, Code(i));
    } else {
      PrefixWord(m, a, k - 1, i);
      DisjointApart(a + 4 * (k - 1), 4, a + 4 * i, 4);
      ReadOtherWrite(Prefix(m, a, k - 1), a + 4 * (k - 1), Code(k - 1), 4, a + 4 * i, 4);
    }
  }

  lemma WrapBelow(a: nat)
    requires a < TWO64
    ensures Wrap64(a) == a
  {}

  /** What the loader leaves is the program, with the rest of memory as it was. */
  lemma LoadedIsProgram(m: Mem, a: nat)
    requires a + 4 * LENGTH <= SIZE
    ensures var m' := Laid(m, a, SortCommands(LENGTH));
      Program(m', a) && forall x :: 0 <= x < SIZE && !Within(x, a, 4 * LENGTH) ==> m'[x] == m[x]
  {
    hide Code, Laid, ReadN, Off;
    var m' := Laid(m, a, SortCommands(LENGTH));
    forall i | 0 <= i < LENGTH ensures Read32(m', a + 4 * i) == Code(i) {
      PrefixWord(m, a, LENGTH, i);
    }
    SortSize(LENGTH);
    forall x | 0 <= x < SIZE && !Within(x, a, 4 * LENGTH) ensures m'[x] == m[x] {
      OutsideOff(x, a);
      LaidElsewhere(m, a, SortCommands(LENGTH), x);
    }
  }

  lemma OutsideOff(x: nat, a: nat)
    requires x < SIZE && a + 4 * LENGTH <= SIZE && !Within(x, a, 4 * LENGTH)
    ensures Off(x, a) >= 4 * LENGTH
  {}

  /** The state in which a test of the program would start the CPU. */
  function Prepared(cfg: P.Config, m: Mem, code: nat, a: nat, n: nat): State
    requires Job(code, a, n, m).Ok()
  {
    State(cfg, seq(REGISTERS, i => 0)[A0 as nat := a][A1 as nat := n], 0, code, Laid(m, code, SortCommands(LENGTH)),
          P.Initial(cfg, 0), Device(0, 0, true, false, false, 0, 0, 0),
          false, 0, false, 0, false, false, false, false, false)
  }

  lemma PreparedIsQuiet(cfg: P.Config)
    ensures QuietSys(cfg, P.Initial(cfg, 0))
  {
    WideStatus();
    hide P.View, P.GetMie, P.GetMprv, QuietSys;
    MachineModeIsQuiet(cfg, P.Initial(cfg, 0));
  }

  lemma WideStatus()
    ensures !P.GetMie(0) && !P.GetMprv(0) && !P.GetMie(0xA_0000_0000) && !P.GetMprv(0xA_0000_0000)
  {}

  lemma ArrayKept(m: Mem, code: nat, a: nat, n: nat)
    requires Job(code, a, n, m).Ok()
    ensures WordsAt(Laid(m, code, SortCommands(LENGTH)), a, n) == WordsAt(m, a, n)
  {
    hide Code, Laid, ReadN;
    var m' := Laid(m, code, SortCommands(LENGTH));
    LoadedIsProgram(m, code);
    forall i | 0 <= i < n ensures Read32(m', a + 4 * i) == Read32(m, a + 4 * i) {
      var b := a + 4 * i;
      forall k | 0 <= k < 4 ensures ByteAt(m', b, k) == ByteAt(m, b, k) {
        InMemory(b + k);
      }
      ReadCongruent(m', m, b, b, 4);
    }
  }

  lemma InMemory(x: nat)
    ensures x < SIZE ==> x % SIZE == x
  {}

  /** Every layout of code and array, over every memory, is a job the theorem speaks about. */
  lemma JobsExist(cfg: P.Config, m: Mem, code: nat, a: nat, n: nat)
    requires Job(code, a, n, m).Ok()
    ensures var s := Prepared(cfg, m, code, a, n);
      CanSort(s, code, a, n) && WordsAt(s.mem, a, n) == WordsAt(m, a, n)
  {
    hide Code, Laid, WordsAt, QuietSys, P.Initial;
    PreparedIsQuiet(cfg);
    LoadedIsProgram(m, code);
    ArrayKept(m, code, a, n);
  }

  /** From the memory the loader leaves, on either machine: the array of every memory gets sorted. */
  lemma LoadedProgramSorts(cfg: P.Config, m: Mem, code: nat, a: nat, n: nat)
    requires Job(code, a, n, m).Ok()
    ensures var s := Prepared(cfg, m, code, a, n);
      && (exists k: nat :: HasSortedFrom(s, k, a, n))
      && multiset(WordsAt(s.mem, a, n)) == multiset(WordsAt(m, a, n))
  {
    hide CanSort, WordsAt, HasSortedFrom, Prepared;
    JobsExist(cfg, m, code, a, n);
    ProgramSorts(Prepared(cfg, m, code, a, n), code, a, n);
  }

  /**
    Running the loaded program on the CPU object: given enough iterations, the run ends without error
    and the array is sorted in place.
   */
  method RunSort(cpu: RiscvCpu, code: u64, a: nat, n: nat, limit: nat) returns (error: bool)
    requires cpu.Valid() && !cpu.aborted && CanSort(Started(cpu.State(), code), code, a, n)
    modifies cpu, cpu.reg, cpu.mmu, cpu.peripheral, cpu.memory, cpu.memory.mapping, cpu.memory.present
    ensures cpu.Valid()
    ensures exists k: nat :: HasSortedFrom(Started(old(cpu.State()), code), k, a, n)
    ensures forall k: nat :: HasSortedFrom(Started(old(cpu.State()), code), k, a, n) && k <= limit ==>
      !error && HasSorted(old(cpu.memory.contents), cpu.State(), a, n)
  {
    hide Represents, WellShaped, Run, CanSort, InsertionSort.Sorted, WordsAt, Untouched, Started;
    ghost var s := Started(cpu.State(), code);
    SameMemory(cpu.State(), code);
    cpu.Showing();
    ProgramSorts(s, code, a, n);
    error := cpu.RunCpu(code, limit);
    cpu.Flags();
  }

  lemma SameMemory(s: State, code: u64)
    ensures Started(s, code).mem == s.mem
  {}
}
