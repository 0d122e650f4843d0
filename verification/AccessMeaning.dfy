/**
  What each load and store does where addresses are used as they are: how many bytes, at which address, and
  the number they stand for. Section 2.6 of the Unprivileged ISA.
 */
module AccessMeaning {
  import opened Words
  import opened FlatMemory
  import opened Decoder
  import opened CpuModel
  import opened DataAccess
  import P = Privileged

  /** The bytes an instruction loads or stores. */
  function Size(op: Op): nat
  {
    match op
    case LB | LBU | SB => 1
    case LH | LHU | SH => 2
    case LW | LWU | SW => 4
    case LD | SD => 8
    case _ => 0
  }

  predicate LoadOp(op: Op) { op in {LB, LBU, LH, LHU, LW, LWU, LD} }

  predicate StoreOp(op: Op) { op in {SB, SH, SW, SD} }

  lemma SizeIs(op: Op)
    requires LoadOp(op) || StoreOp(op)
    ensures AccessWidthOf(op) == Size(op) && (LoadOp(op) ==> IsLoad(op)) && (StoreOp(op) ==> IsStore(op))
  {}

  /** The number a load makes of `x`: two's complement of its width for LB, LH and LW, unsigned for the others. */
  predicate Reads(op: Op, x: nat, v: u64)
  {
    match op
    case LB => Signed64(v) == if x < 0x80 then x else x - 0x100
    case LH => Signed64(v) == if x < 0x8000 then x else x - 0x1_0000
    case LW => Signed64(v) == if x < 0x8000_0000 then x else x - 0x1_0000_0000
    case _ => v == x
  }

  lemma ReadsIs(op: Op, x: u64)
    requires LoadOp(op) && IsLoad(op) && x < Bound(AccessWidthOf(op))
    ensures Reads(op, x, LoadResult(op, x))
  {
    hide SignExtended, LoadResult, Signed64, AccessWidthOf, KindOf;
    SizeIs(op);
    LoadResults(op, x);
    ExtendsSigned(x, AccessWidthOf(op));
  }

  /** The copy of the cycle counter at 0x200BFF8 is brought up to date, and no other byte of memory changes. */
  ghost predicate Refreshed(m: Mem, m': Mem, cycles: u64)
  {
    ReadN(m', 0x200_BFF8, 8) == cycles && forall x :: 0 <= x < SIZE && Off(x, 0x200_BFF8) >= 8 ==> m'[x] == m[x]
  }

  lemma RefreshIs(m: Mem, cycles: u64)
    ensures Refreshed(m, WriteN(m, TIMER_MTIME, cycles, 8), cycles)
  {
    hide ReadN, WriteN, Pow256;
    var a: nat := TIMER_MTIME;
    ReadOwnWrite(m, a, cycles, 8);
    PowValues();
    forall x | 0 <= x < SIZE && Off(x, a) >= 8 ensures WriteN(m, a, cycles, 8)[x] == m[x] { WriteAt(m, a, cycles, 8, x); }
  }

  ghost predicate Loads(s: State, d: Decoded, t: State)
  {
    var va, v := (s.regs[d.rs1 as nat] + Imm(d.imm)) % TWO64, t.regs[d.rd as nat];
    && t == s.(mem := t.mem, regs := s.regs[d.rd as nat := v]) && Refreshed(s.mem, t.mem, s.dev.elapsedCycles)
    && Reads(d.op, ReadN(t.mem, va, Size(d.op)), v)
  }

  lemma LoadedMeans(s: State, d: Decoded, m: Mem, v: u64)
    requires Refreshed(s.mem, m, s.dev.elapsedCycles) && Reads(d.op, ReadN(m, Wrap64(X(s, d.rs1) + Imm(d.imm)), Size(d.op)), v)
    ensures Loads(s, d, SetReg(SetMem(s, m), d.rd, v))
  {
    hide ReadN, Imm, Reads, Size, Refreshed;
  }

  lemma LoadMeans(s: State, d: Decoded, csr: nat)
    requires csr < P.CSR_SIZE && LoadOp(d.op) && Bare(s)
    ensures Loads(s, d, Execute(s, d, csr))
  {
    hide Load, ReadN, WriteN, Bare, LoadResult, AccessWidthOf, Imm, Reads, Size, Refreshed, KindOf, Bound, LoadOp, SetReg, SetMem, Loads, Wrap64, Execute, X;
    var m, op, a, imm := WriteN(s.mem, TIMER_MTIME, s.dev.elapsedCycles, 8), d.op, X(s, d.rs1), Imm(d.imm);
    SizeIs(op);
    ExecutesLoad(s, d, csr);
    LoadBare(s, op, d.rd, a, imm);
    RefreshIs(s.mem, s.dev.elapsedCycles);
    DataBound(m, Wrap64(a + imm), op);
    ReadsIs(op, LoadedBare(s, op, a, imm));
    LoadedMeans(s, d, m, LoadResult(op, LoadedBare(s, op, a, imm)));
  }

  lemma DataBound(m: Mem, a: nat, op: Op)
    requires IsLoad(op)
    ensures ReadN(m, a, AccessWidthOf(op)) < Bound(AccessWidthOf(op))
  {
    hide ReadN, AccessWidthOf, Pow256, KindOf;
    ReadBound(m, a, AccessWidthOf(op));
    Powers(op);
  }

  lemma ExecutesLoad(s: State, d: Decoded, csr: nat)
    requires csr < P.CSR_SIZE && IsLoad(d.op)
    ensures Execute(s, d, csr) == Load(s, d.op, d.rd, X(s, d.rs1), Imm(d.imm))
  {
    hide Load, Imm;
  }

  /** Byte `k` of rs2 goes to the address `k` places on, and no other byte changes. */
  ghost predicate Stores(s: State, d: Decoded, t: State)
  {
    var va, v := (s.regs[d.rs1 as nat] + Imm(d.imm)) % TWO64, s.regs[d.rs2 as nat];
    && t == s.(mem := t.mem, dev := t.dev) && t.dev == CheckDeviceWrite(s.dev, va, Size(d.op), v)
    && forall x :: 0 <= x < SIZE ==> t.mem[x] == if Off(x, va) < Size(d.op) then ByteOf(v, Off(x, va)) else s.mem[x]
  }

  lemma StoreMeans(s: State, d: Decoded, csr: nat)
    requires csr < P.CSR_SIZE && StoreOp(d.op) && Bare(s)
    ensures Stores(s, d, Execute(s, d, csr))
  {
    hide Store, WriteN, Bare, AccessWidthOf, Imm, Size, KindOf, CheckDeviceWrite, ByteOf, Off, StoreOp;
    var op, v, va := d.op, X(s, d.rs2), Wrap64(X(s, d.rs1) + Imm(d.imm));
    SizeIs(op);
    ExecutesStore(s, d, csr);
    StoreBare(s, op, v, X(s, d.rs1), Imm(d.imm));
    forall x | 0 <= x < SIZE
      ensures WriteN(s.mem, va, v, AccessWidthOf(op))[x] == if Off(x, va) < Size(op) then ByteOf(v, Off(x, va)) else s.mem[x]
    {
      WriteAt(s.mem, va, v, AccessWidthOf(op), x);
    }
  }

  lemma ExecutesStore(s: State, d: Decoded, csr: nat)
    requires csr < P.CSR_SIZE && IsStore(d.op)
    ensures Execute(s, d, csr) == Store(s, d.op, X(s, d.rs2), X(s, d.rs1), Imm(d.imm))
  {
    hide Store, Imm;
  }
}
