/**
  The guest program of LoadAssemblerSort (tests/load_assembler.cc) run by the step loop: it ends
  without error, and the array is then sorted, a permutation of what it was, with the rest of memory
  as before except for the copy of mtime that every load refreshes.
 */
module SortProgram {
  import opened Words
  import opened FlatMemory
  import opened PageWalk
  import opened Decoder
  import opened Alu
  import opened CpuModel
  import opened MachineMode
  import opened Iteration
  import opened InsertionSort
  import P = Privileged

  const LENGTH := 19

  // Register numbers.
  const X0: bv5 := 0
  const X1: bv5 := 1
  const A0: bv5 := 10
  const A1: bv5 := 11
  const A2: bv5 := 12
  const A3: bv5 := 13
  const A4: bv5 := 14
  const A5: bv5 := 15
  const A6: bv5 := 16
  const A7: bv5 := 17

  function Addi(rd: bv5, rs1: bv5, imm: bv32): Decoded { Decoded(ADDI, rd, rs1, 0, imm) }

  function BranchTo(op: Op, rs1: bv5, rs2: bv5, imm: bv32): Decoded { Decoded(op, 0, rs1, rs2, imm) }

  /** A0 holds the address of the array and A1 its length; A4 is i, A5 is j, A6 the element to insert. */
  function Instruction(k: nat): Decoded
    requires k < LENGTH
  {
    match k
    case 0 => Addi(A3, A0, 4)
    case 1 => Addi(A4, X0, 1)
    // outer loop
    case 2 => BranchTo(BLTU, A4, A1, 8)
    case 3 => Decoded(JALR, X0, X1, 0, 0)
    case 4 => Decoded(LW, A6, A3, 0, 0)
    case 5 => Addi(A2, A3, 0)
    case 6 => Addi(A5, A4, 0)
    // inner loop
    case 7 => Decoded(LW, A7, A2, 0, 0xFFFF_FFFC)
    case 8 => BranchTo(BGE, A6, A7, 20)
    case 9 => Decoded(SW, 0, A2, A7, 0)
    case 10 => Addi(A5, A5, 0xFFFF_FFFF)
    case 11 => Addi(A2, A2, 0xFFFF_FFFC)
    case 12 => BranchTo(BNE, A5, X0, 0xFFFF_FFEC)
    // the hole is found
    case 13 => Decoded(SLLI, A5, A5, 0, 2)
    case 14 => Decoded(ADD, A5, A0, A5, 0)
    case 15 => Decoded(SW, 0, A5, A6, 0)
    case 16 => Addi(A4, A4, 1)
    case 17 => Addi(A3, A3, 4)
    case _ => Decoded(JAL, X0, 0, 0, 0xFFFF_FFC0)
  }

  function Code(k: nat): u32
    requires k < LENGTH
  {
    Value32(Assemble(Instruction(k)))
  }

  /** `n` words of memory from address `a` on. */
  function WordsAt(m: Mem, a: nat, n: nat): (r: seq<u32>)
    ensures |r| == n
  {
    seq(n, i requires 0 <= i < n => Read32(m, a + 4 * i))
  }

  predicate Program(m: Mem, code: nat) { WordsAt(m, code, LENGTH) == seq(LENGTH, k requires 0 <= k < LENGTH => Code(k)) }

  /** A sign-extended 12-bit number. */
  predicate Short(imm: bv32) { imm & 0xFFFF_F800 == 0 || imm & 0xFFFF_F800 == 0xFFFF_F800 }

  lemma ShortFits12(imm: bv32)
    requires Short(imm)
    ensures Fits12(imm)
  {
    if imm & 0xFFFF_F800 == 0 {} else {}
  }

  lemma ShortFits13(imm: bv32)
    requires Short(imm) && imm & 1 == 0
    ensures Fits13(imm)
  {
    if imm & 0xFFFF_F800 == 0 {} else {}
  }

  lemma ShortFits21(imm: bv32)
    requires Short(imm) && imm & 1 == 0
    ensures Fits21(imm)
  {
    if imm & 0xFFFF_F800 == 0 {} else {}
  }

  lemma ImmediatesFit(k: nat)
    requires k < LENGTH
    ensures var imm := Instruction(k).imm; Short(imm) && (k in {2, 8, 12, 18} ==> imm & 1 == 0)
  {
    match k
    case 0 =>
    case 1 =>
    case 2 =>
    case 3 =>
    case 4 =>
    case 5 =>
    case 6 =>
    case 7 =>
    case 8 =>
    case 9 =>
    case 10 =>
    case 11 =>
    case 12 =>
    case 13 =>
    case 14 =>
    case 15 =>
    case 16 =>
    case 17 =>
    case _ =>
  }

  function OpAt(k: nat): Op
    requires k < LENGTH
  {
    if k == 2 then BLTU else if k == 3 then JALR else if k == 4 || k == 7 then LW else if k == 8 then BGE
    else if k == 9 || k == 15 then SW else if k == 12 then BNE else if k == 13 then SLLI else if k == 14 then ADD
    else if k == 18 then JAL else ADDI
  }

  lemma Ops(k: nat)
    requires k < LENGTH
    ensures Instruction(k).op == OpAt(k)
  {
    match k
    case 0 =>
    case 1 =>
    case 2 =>
    case 3 =>
    case 4 =>
    case 5 =>
    case 6 =>
    case 7 =>
    case 8 =>
    case 9 =>
    case 10 =>
    case 11 =>
    case 12 =>
    case 13 =>
    case 14 =>
    case 15 =>
    case 16 =>
    case 17 =>
    case _ =>
  }

  lemma Formats(k: nat)
    requires k < LENGTH
    ensures var op := Instruction(k).op; Assemblable(op) && !IsCsr(op)
    ensures FormatOf(Instruction(k).op) == if k in {2, 8, 12} then B else if k == 14 then R else if k == 13 then Format.Shift
        else if k == 18 then J else if k in {9, 15} then S else I
  {
    hide Instruction;
    Ops(k);
  }

  lemma Encodes(k: nat)
    requires k < LENGTH
    ensures var d := Instruction(k); Assemblable(d.op) && Encodable(d) && !IsCsr(d.op)
  {
    hide Fits12, Fits13, Fits20, Fits21, FormatOf, Assemblable, KindOf, Short;
    var imm := Instruction(k).imm;
    Formats(k);
    ImmediatesFit(k);
    ShortFits12(imm);
    if k in {2, 8, 12, 18} { ShortFits13(imm); ShortFits21(imm); }
  }

  lemma Immediates()
    ensures Imm(0) == 0 && Imm(1) == 1 && Imm(4) == 4 && Imm(8) == 8 && Imm(20) == 20
    ensures Imm(0xFFFF_FFFF) == -1 && Imm(0xFFFF_FFFC) == -4 && Imm(0xFFFF_FFEC) == -20 && Imm(0xFFFF_FFC0) == -64
    ensures Value32(2) == 2
  {}

  // ----- memory as the program sees it -----

  /** The ranges [a, a+n) and [b, b+k) lie in memory and do not meet. */
  predicate Disjoint(a: nat, n: nat, b: nat, k: nat) { a + n <= SIZE && b + k <= SIZE && (a + n <= b || b + k <= a) }

  lemma DisjointApart(a: nat, n: nat, b: nat, k: nat)
    requires Disjoint(a, n, b, k) && n > 0 && k > 0
    ensures Apart(a, n, b, k)
  {}

  lemma WordsUnchanged(m: Mem, b: nat, v: nat, k: nat, a: nat, n: nat)
    requires 0 < k <= 8 && Disjoint(b, k, a, 4 * n)
    ensures WordsAt(WriteN(m, b, v, k), a, n) == WordsAt(m, a, n)
  {
    hide WriteN, ReadN, Apart;
    forall i | 0 <= i < n ensures Read32(WriteN(m, b, v, k), a + 4 * i) == Read32(m, a + 4 * i) {
      DisjointApart(b, k, a + 4 * i, 4);
      ReadOtherWrite(m, b, v, k, a + 4 * i, 4);
    }
  }

  lemma WordWritten(m: Mem, a: nat, v: u64)
    ensures Read32(WriteN(m, a, v, 4), a) == v % TWO32
  {
    hide WriteN, ReadN;
    ReadOwnWrite(m, a, v, 4);
    PowValues();
  }

  lemma WordsUpdated(m: Mem, a: nat, n: nat, j: nat, v: u64)
    requires j < n && a + 4 * n <= SIZE
    ensures WordsAt(WriteN(m, a + 4 * j, v, 4), a, n) == WordsAt(m, a, n)[j := v % TWO32]
  {
    hide WriteN, ReadN, Apart;
    forall i | 0 <= i < n
      ensures Read32(WriteN(m, a + 4 * j, v, 4), a + 4 * i) == if i == j then v % TWO32 else Read32(m, a + 4 * i)
    {
      if i == j {
        WordWritten(m, a + 4 * j, v);
      } else {
        DisjointApart(a + 4 * j, 4, a + 4 * i, 4);
        ReadOtherWrite(m, a + 4 * j, v, 4, a + 4 * i, 4);
      }
    }
  }

  predicate Within(x: nat, a: nat, n: nat) { a <= x < a + n }

  /** Outside the array and the copy of mtime the two memories are the same. */
  ghost predicate Untouched(m: Mem, m': Mem, a: nat, n: nat)
  {
    forall x :: 0 <= x < SIZE && !Within(x, a, 4 * n) && !Within(x, TIMER_MTIME, 8) ==> m[x] == m'[x]
  }

  lemma WriteTouches(m: Mem, m': Mem, a: nat, n: nat, b: nat, v: nat, k: nat)
    requires Untouched(m, m', a, n) && k <= 8 && b + k <= SIZE
    requires forall x :: Within(x, b, k) ==> Within(x, a, 4 * n) || Within(x, TIMER_MTIME, 8)
    ensures Untouched(m, WriteN(m', b, v, k), a, n)
  {
    hide WriteN;
    forall x | 0 <= x < SIZE && !Within(x, a, 4 * n) && !Within(x, TIMER_MTIME, 8) ensures m[x] == WriteN(m', b, v, k)[x] {
      WriteAt(m', b, v, k, x);
    }
  }

  // ----- the state between two instructions -----

  /** A sorting job: where the code and the array are, and the memory it started with. */
  datatype Job = Job(code: nat, a: nat, n: nat, start: Mem) {
    predicate Ok()
    {
      && code % 2 == 0 && a % 4 == 0 && a + 4 * n <= TWO31
      && Disjoint(code, 4 * LENGTH, a, 4 * n)
      && Disjoint(code, 4 * LENGTH, TIMER_MTIME, 8)
      && Disjoint(a, 4 * n, TIMER_MTIME, 8)
    }
  }

  /** In the middle of job `p`, with `es` in the array. */
  ghost predicate Sorting(s: State, p: Job, es: seq<u32>)
  {
    && p.Ok() && Quiet(s)
    && Program(s.mem, p.code) && WordsAt(s.mem, p.a, p.n) == es && Untouched(p.start, s.mem, p.a, p.n)
    && X(s, X1) == 0 && X(s, A0) == p.a && X(s, A1) == p.n
  }

  /** At instruction `k` of the program. */
  predicate At(s: State, p: Job, k: nat) { s.nextPc == p.code + 4 * k }

  lemma Ready(s: State, p: Job, es: seq<u32>, k: nat)
    requires Sorting(s, p, es) && At(s, p, k) && k < LENGTH
    ensures Before(s, Instruction(k)) && Following(s) == s.nextPc + 4
  {
    hide Instruction, Assemble, Assemblable, Encodable, KindOf, Quiet, Read32, Untouched;
    Encodes(k);
    assert WordsAt(s.mem, p.code, LENGTH)[k] == Code(k);
  }

  /** The program never assigns to zero, ra, a0 or a1. */
  predicate Scratch(rd: bv5) { rd != X0 && rd != X1 && rd != A0 && rd != A1 }

  lemma SameRegister(regs: Regs, rd: bv5, v: u64, r: bv5)
    ensures Put(regs, rd, v)[r as nat] == if r == rd then v else regs[r as nat]
  {
    if r as nat == rd as nat { SameNumber(r, rd); }
  }

  lemma KeepsJob(s: State, s': State, p: Job, es: seq<u32>, rd: bv5, v: u64, pc: u64, m: Mem, es': seq<u32>)
    requires Sorting(s, p, es) && Moves(s, s', Put(s.regs, rd, v), pc, m) && Scratch(rd)
    requires Program(m, p.code) && WordsAt(m, p.a, p.n) == es' && Untouched(p.start, m, p.a, p.n)
    ensures Sorting(s', p, es')
    ensures forall r: bv5 :: X(s', r) == if r == rd then v else X(s, r)
  {
    hide Program, WordsAt, Untouched, Quiet, Put;
    forall r: bv5 ensures X(s', r) == if r == rd then v else X(s, r) { SameRegister(s.regs, rd, v, r); }
  }

  /** From `s` to `s'`: now at instruction `k`, with `es` in the array and one register changed. */
  ghost predicate Goes(s: State, s': State, p: Job, k: nat, es: seq<u32>, rd: bv5, v: u64)
  {
    && Sorting(s', p, es) && At(s', p, k)
    && forall r: bv5 :: X(s', r) == if r == rd then v else X(s, r)
  }

  lemma Computing(s: State, p: Job, es: seq<u32>, k: nat, v: u64)
    requires Sorting(s, p, es) && At(s, p, k) && k + 1 < LENGTH
    requires var d := Instruction(k); Computes(d.op) && Scratch(d.rd) && Result(s, d) == v
    ensures Goes(s, Step(s), p, k + 1, es, Instruction(k).rd, v)
  {
    hide Instruction, KindOf, Step, Result, Quiet, Program, WordsAt, Untouched, Moves, Put, Before;
    Ready(s, p, es, k);
    RegisterZero(Instruction(k).rd);
    StepComputes(s, Instruction(k));
    KeepsJob(s, Step(s), p, es, Instruction(k).rd, v, s.nextPc + 4, s.mem, es);
    MovesTo(s, Step(s), Put(s.regs, Instruction(k).rd, v), s.nextPc + 4, s.mem);
  }

  lemma RegisterZero(rd: bv5)
    requires rd != X0
    ensures rd as nat != 0
  {
    if rd as nat == 0 { SameNumber(rd, 0); }
  }

  lemma MovesTo(s: State, s': State, regs: Regs, pc: u64, m: Mem)
    requires Moves(s, s', regs, pc, m)
    ensures s'.nextPc == pc && s'.cfg == s.cfg
  {}

  lemma AddSmall(xlen: int, a: u64, i: int)
    requires 0 <= a + i < TWO31
    ensures ImmediateValue(xlen, ADDI, a, i) == a + i
  {}

  lemma Adding(s: State, p: Job, es: seq<u32>, k: nat, rd: bv5, rs1: bv5, imm: bv32)
    requires Sorting(s, p, es) && At(s, p, k) && k + 1 < LENGTH
    requires Instruction(k) == Addi(rd, rs1, imm) && Scratch(rd)
    requires 0 <= X(s, rs1) + Imm(imm) < TWO31
    ensures Goes(s, Step(s), p, k + 1, es, rd, X(s, rs1) + Imm(imm))
  {
    hide Instruction, Step, Quiet, Sorting, ImmediateValue, Imm, X, Goes, Scratch;
    AddSmall(s.cfg.Xlen, X(s, rs1), Imm(imm));
    Computing(s, p, es, k, X(s, rs1) + Imm(imm));
  }

  function Goal(op: Op, a: u64, b: u64, target: nat, next: nat): nat
    requires IsBranch(op)
  {
    if BranchTaken(op, a, b) then target else next
  }

  /** A conditional branch of the program. */
  lemma Branching(s: State, p: Job, es: seq<u32>, k: nat, op: Op, rs1: bv5, rs2: bv5, imm: bv32, target: nat)
    requires Sorting(s, p, es) && At(s, p, k) && k + 1 < LENGTH && target < LENGTH && target != k
    requires Instruction(k) == BranchTo(op, rs1, rs2, imm) && IsBranch(op) && Imm(imm) == 4 * (target - k)
    ensures Goes(s, Step(s), p, Goal(op, X(s, rs1), X(s, rs2), target, k + 1), es, X0, 0)
  {
    hide Instruction, KindOf, Step, BranchTaken, Quiet, Program, WordsAt, Untouched, Before, Imm;
    Ready(s, p, es, k);
    StepBranches(s, Instruction(k));
    ZeroRegister(s);
    Unchanged(s, Step(s));
  }

  lemma ZeroRegister(s: State)
    requires Quiet(s)
    ensures X(s, X0) == 0
  {}

  lemma Unchanged(s: State, s': State)
    requires s'.regs == s.regs && X(s, X0) == 0
    ensures forall r: bv5 :: X(s', r) == if r == X0 then 0 else X(s, r)
  {
    forall r: bv5 ensures X(s', r) == if r == X0 then 0 else X(s, r) {}
  }

  /** The jump back to the head of the outer loop. */
  lemma JumpingBack(s: State, p: Job, es: seq<u32>)
    requires Sorting(s, p, es) && At(s, p, 18)
    ensures Goes(s, Step(s), p, 2, es, X0, 0)
  {
    hide Step, Quiet, Program, WordsAt, Untouched, Before, Imm;
    Ready(s, p, es, 18);
    Immediates();
    StepJumps(s, Instruction(18));
    ZeroRegister(s);
    Unchanged(s, Step(s));
  }

  lemma Refreshing(s: State, p: Job, es: seq<u32>)
    requires Sorting(s, p, es)
    ensures var m := Refreshed(s); Program(m, p.code) && WordsAt(m, p.a, p.n) == es && Untouched(p.start, m, p.a, p.n)
  {
    hide Quiet, WordsAt, Untouched, WriteN;
    var t := Wrap64(s.dev.elapsedCycles + 1);
    WordsUnchanged(s.mem, TIMER_MTIME, t, 8, p.code, LENGTH);
    WordsUnchanged(s.mem, TIMER_MTIME, t, 8, p.a, p.n);
    WriteTouches(p.start, s.mem, p.a, p.n, TIMER_MTIME, t, 8);
  }

  /** Loading element `j` of the array. */
  lemma Loading(s: State, p: Job, es: seq<u32>, k: nat, rd: bv5, rs1: bv5, imm: bv32, j: nat)
    requires Sorting(s, p, es) && At(s, p, k) && k + 1 < LENGTH && j < p.n
    requires Instruction(k) == Decoded(LW, rd, rs1, 0, imm) && Scratch(rd) && X(s, rs1) + Imm(imm) == p.a + 4 * j
    ensures Goes(s, Step(s), p, k + 1, es, rd, Sext32(es[j]))
  {
    hide Instruction, Step, Quiet, Program, Untouched, Moves, Put, Before, Imm, Refreshed, Sext32, X, Read32;
    Ready(s, p, es, k);
    RegisterZero(rd);
    Refreshing(s, p, es);
    assert WordsAt(Refreshed(s), p.a, p.n)[j] == Read32(Refreshed(s), p.a + 4 * j);
    StepLoadsWord(s, Instruction(k));
    KeepsJob(s, Step(s), p, es, rd, Sext32(es[j]), s.nextPc + 4, Refreshed(s), es);
    MovesTo(s, Step(s), Put(s.regs, rd, Sext32(es[j])), s.nextPc + 4, Refreshed(s));
  }

  lemma StoringKeeps(m: Mem, p: Job, j: nat, v: u64)
    requires p.Ok() && j < p.n && Program(m, p.code) && Untouched(p.start, m, p.a, p.n)
    ensures var m' := WriteN(m, p.a + 4 * j, v, 4);
      Program(m', p.code) && WordsAt(m', p.a, p.n) == WordsAt(m, p.a, p.n)[j := v % TWO32] && Untouched(p.start, m', p.a, p.n)
  {
    hide WordsAt, Untouched, WriteN;
    WordsUnchanged(m, p.a + 4 * j, v, 4, p.code, LENGTH);
    WordsUpdated(m, p.a, p.n, j, v);
    WriteTouches(p.start, m, p.a, p.n, p.a + 4 * j, v, 4);
  }

  /** Storing a word, kept sign-extended in a register, into element `j`. */
  lemma Storing(s: State, p: Job, es: seq<u32>, k: nat, rs1: bv5, rs2: bv5, j: nat, x: u32)
    requires Sorting(s, p, es) && At(s, p, k) && k + 1 < LENGTH && j < p.n
    requires Instruction(k) == Decoded(SW, 0, rs1, rs2, 0) && X(s, rs1) == p.a + 4 * j && X(s, rs2) == Sext32(x)
    ensures Goes(s, Step(s), p, k + 1, es[j := x], X0, 0)
  {
    hide Instruction, Step, Quiet, Program, WordsAt, Untouched, Before, Imm, Sext32, WriteN;
    Ready(s, p, es, k);
    Immediates();
    StoringKeeps(s.mem, p, j, X(s, rs2));
    StepStoresWord(s, Instruction(k));
    ZeroRegister(s);
    Unchanged(s, Step(s));
  }

  // ----- the loops -----

  lemma Listing()
    ensures Instruction(0) == Addi(A3, A0, 4) && Instruction(1) == Addi(A4, X0, 1)
    ensures Instruction(2) == BranchTo(BLTU, A4, A1, 8) && Instruction(3) == Decoded(JALR, X0, X1, 0, 0)
    ensures Instruction(4) == Decoded(LW, A6, A3, 0, 0)
    ensures Instruction(5) == Addi(A2, A3, 0) && Instruction(6) == Addi(A5, A4, 0)
    ensures Instruction(7) == Decoded(LW, A7, A2, 0, 0xFFFF_FFFC) && Instruction(8) == BranchTo(BGE, A6, A7, 20)
    ensures LaterInstructions()
  {
    LaterListing();
  }

  predicate LaterInstructions()
  {
    && Instruction(9) == Decoded(SW, 0, A2, A7, 0) && Instruction(10) == Addi(A5, A5, 0xFFFF_FFFF)
    && Instruction(11) == Addi(A2, A2, 0xFFFF_FFFC) && Instruction(12) == BranchTo(BNE, A5, X0, 0xFFFF_FFEC)
    && Instruction(15) == Decoded(SW, 0, A5, A6, 0)
    && Instruction(16) == Addi(A4, A4, 1) && Instruction(17) == Addi(A3, A3, 4)
  }

  lemma LaterListing()
    ensures LaterInstructions()
  {}

  lemma Conditions(a: u64, b: u64)
    ensures IsBranch(BNE) && IsBranch(BGE) && IsBranch(BLTU)
    ensures BranchTaken(BNE, a, b) <==> a != b
    ensures BranchTaken(BGE, a, b) <==> Signed64(a) >= Signed64(b)
    ensures BranchTaken(BLTU, a, b) <==> a < b
  {}

  ghost predicate Reaches(s: State, t: State) { exists k: nat :: Run(s, k) == t }

  lemma ReachesStep(s: State, t: State)
    requires !Halted(s) && Reaches(Step(s), t)
    ensures Reaches(s, t)
  {
    hide Step, Halted;
    var k: nat :| Run(Step(s), k) == t;
    assert Run(s, k + 1) == t;
  }

  lemma ReachesSelf(s: State)
    ensures Reaches(s, s)
  {
    hide Step, Halted;
    assert Run(s, 0) == s;
  }

  lemma ReachesOn(s: State, t: State, u: State)
    requires Reaches(s, t) && Reaches(t, u)
    ensures Reaches(s, u)
  {
    hide Run;
    var k: nat :| Run(s, k) == t;
    var l: nat :| Run(t, l) == u;
    RunCompose(s, k, l);
    assert Run(s, k + l) == u;
  }

  lemma SortingRuns(s: State, p: Job, es: seq<u32>)
    requires Sorting(s, p, es)
    ensures !Halted(s) && |es| == p.n && p.a + 4 * p.n <= TWO31 && X(s, A0) == p.a && X(s, A1) == p.n && X(s, X0) == 0
  {
    hide Halted, Program, Untouched, WordsAt;
  }

  lemma TimesFour(xlen: int, j: nat)
    requires 4 * j < TWO31
    ensures ShiftValue(xlen, SLLI, j, 2) == 4 * j
  {
    assert Pow2(2) == 4;
  }

  lemma Sum(xlen: int, a: u64, b: u64)
    requires a + b < TWO31
    ensures OperationValue(xlen, ADD, a, b) == a + b
  {}

  lemma AddressListing()
    ensures Instruction(13) == Decoded(SLLI, A5, A5, 0, 2) && Instruction(14) == Decoded(ADD, A5, A0, A5, 0)
    ensures KindOf(SLLI) == Kind.ShiftImmediate && KindOf(ADD) == Kind.Operation
    ensures Scratch(A5)
  {}

  /** Instructions 13 and 14: the address of element `j`. */
  lemma Addressing(s: State, p: Job, es: seq<u32>, j: nat) returns (t: State)
    requires Sorting(s, p, es) && At(s, p, 13) && j < p.n && X(s, A5) == j
    ensures Goes(s, t, p, 15, es, A5, p.a + 4 * j) && Reaches(s, t)
  {
    hide Step, Sorting, ShiftValue, OperationValue, X, Reaches, Value32, Imm, Instruction, KindOf, Scratch;
    AddressListing();
    SortingRuns(s, p, es);
    Immediates();
    TimesFour(s.cfg.Xlen, j);
    Computing(s, p, es, 13, 4 * j);
    var s1 := Step(s);
    SortingRuns(s1, p, es);
    Sum(s1.cfg.Xlen, p.a, 4 * j);
    Computing(s1, p, es, 14, p.a + 4 * j);
    t := Step(s1);
    ReachesSelf(t); ReachesStep(s1, t); ReachesStep(s, t);
  }

  /** Instructions 15 to 18: the element is put into the hole, and i moves on. */
  lemma Placing(s: State, p: Job, es: seq<u32>, i: nat, j: nat, x: u32) returns (t: State)
    requires Sorting(s, p, es) && At(s, p, 15) && j <= i < p.n && |es| == p.n
    requires X(s, A3) == p.a + 4 * i && X(s, A4) == i && X(s, A5) == p.a + 4 * j && X(s, A6) == Sext32(x)
    ensures Sorting(t, p, es[j := x]) && At(t, p, 2) && Reaches(s, t)
    ensures X(t, A4) == i + 1 && (i + 1 < p.n ==> X(t, A3) == p.a + 4 * (i + 1))
  {
    hide Step, Sorting, X, Reaches, Imm, Sext32, ImmediateValue, Instruction;
    Listing();
    var fs := es[j := x];
    SortingRuns(s, p, es);
    Immediates();
    Storing(s, p, es, 15, A5, A6, j, x);
    var s1 := Step(s);
    SortingRuns(s1, p, fs);
    Adding(s1, p, fs, 16, A4, A4, 1);
    var s2 := Step(s1);
    SortingRuns(s2, p, fs);
    if i + 1 < p.n { AddSmall(s2.cfg.Xlen, X(s2, A3), 4); }
    Computing(s2, p, fs, 17, Result(s2, Instruction(17)));
    var s3 := Step(s2);
    SortingRuns(s3, p, fs);
    JumpingBack(s3, p, fs);
    t := Step(s3);
    ReachesSelf(t); ReachesStep(s3, t); ReachesStep(s2, t); ReachesStep(s1, t); ReachesStep(s, t);
  }

  /** Instructions 9 to 12: the element below the hole moves up, and the hole moves down. */
  lemma Shifting(s: State, p: Job, es: seq<u32>, j: nat) returns (t: State)
    requires Sorting(s, p, es) && At(s, p, 9) && 0 < j < p.n && |es| == p.n
    requires X(s, A2) == p.a + 4 * j && X(s, A5) == j && X(s, A7) == Sext32(es[j - 1])
    ensures Sorting(t, p, es[j := es[j - 1]]) && At(t, p, if j == 1 then 13 else 7) && Reaches(s, t)
    ensures X(t, A2) == p.a + 4 * (j - 1) && X(t, A5) == j - 1
    ensures X(t, A3) == X(s, A3) && X(t, A4) == X(s, A4) && X(t, A6) == X(s, A6)
  {
    hide Step, Sorting, X, Reaches, Imm, Sext32, Instruction, BranchTaken, KindOf;
    Listing();
    var fs := es[j := es[j - 1]];
    SortingRuns(s, p, es);
    Immediates();
    Storing(s, p, es, 9, A2, A7, j, es[j - 1]);
    var s1 := Step(s);
    SortingRuns(s1, p, fs);
    Adding(s1, p, fs, 10, A5, A5, 0xFFFF_FFFF);
    var s2 := Step(s1);
    SortingRuns(s2, p, fs);
    Adding(s2, p, fs, 11, A2, A2, 0xFFFF_FFFC);
    var s3 := Step(s2);
    SortingRuns(s3, p, fs);
    Conditions(X(s3, A5), X(s3, X0));
    Branching(s3, p, fs, 12, BNE, A5, X0, 0xFFFF_FFEC, 7);
    t := Step(s3);
    ReachesSelf(t); ReachesStep(s3, t); ReachesStep(s2, t); ReachesStep(s1, t); ReachesStep(s, t);
  }

  /** Instructions 7 and 8: compare with the element below the hole. */
  lemma Comparing(s: State, p: Job, es: seq<u32>, j: nat, x: u32) returns (t: State)
    requires Sorting(s, p, es) && At(s, p, 7) && 0 < j < p.n && |es| == p.n && X(s, A2) == p.a + 4 * j && X(s, A6) == Sext32(x)
    ensures Sorting(t, p, es) && At(t, p, if Signed32(x) >= Signed32(es[j - 1]) then 13 else 9) && Reaches(s, t)
    ensures forall r: bv5 :: X(t, r) == if r == A7 then Sext32(es[j - 1]) else X(s, r)
  {
    hide Step, Sorting, X, Reaches, Imm, Sext32, Signed64, Signed32, Instruction, BranchTaken, KindOf;
    Listing();
    SortingRuns(s, p, es);
    Immediates();
    Loading(s, p, es, 7, A7, A2, 0xFFFF_FFFC, j - 1);
    var s1 := Step(s);
    SortingRuns(s1, p, es);
    Conditions(X(s1, A6), X(s1, A7));
    Branching(s1, p, es, 8, BGE, A6, A7, 20, 13);
    t := Step(s1);
    SortingRuns(t, p, es);
    ReachesSelf(t); ReachesStep(s1, t); ReachesStep(s, t);
  }

  /** The inner loop and what follows it perform `Insert`. */
  lemma {:induction false} Inserting(s: State, p: Job, es: seq<u32>, i: nat, j: nat, x: u32) returns (t: State)
    requires Sorting(s, p, es) && At(s, p, if j == 0 then 13 else 7) && j <= i < p.n && |es| == p.n
    requires X(s, A2) == p.a + 4 * j && X(s, A3) == p.a + 4 * i && X(s, A4) == i && X(s, A5) == j && X(s, A6) == Sext32(x)
    ensures Sorting(t, p, Insert(es, j, x)) && At(t, p, 2) && Reaches(s, t)
    ensures X(t, A4) == i + 1 && (i + 1 < p.n ==> X(t, A3) == p.a + 4 * (i + 1))
    decreases j
  {
    hide Step, Sorting, X, Reaches, Sext32, Signed32;
    var c := s;
    ReachesSelf(s);
    if j > 0 { c := Comparing(s, p, es, j, x); }
    if j > 0 && Signed32(x) < Signed32(es[j - 1]) {
      var d := Shifting(c, p, es, j);
      t := Inserting(d, p, es[j := es[j - 1]], i, j - 1, x);
      ReachesOn(c, d, t);
    } else {
      var d := Addressing(c, p, es, j);
      t := Placing(d, p, es, i, j, x);
      ReachesOn(c, d, t);
    }
    ReachesOn(s, c, t);
  }

  /** Instructions 2 and 4 to 6: take element `i` out of the array. */
  lemma Taking(s: State, p: Job, es: seq<u32>, i: nat) returns (t: State)
    requires Sorting(s, p, es) && At(s, p, 2) && 0 < i < p.n && |es| == p.n
    requires X(s, A4) == i && X(s, A3) == p.a + 4 * i
    ensures Sorting(t, p, es) && At(t, p, 7) && Reaches(s, t)
    ensures X(t, A2) == p.a + 4 * i && X(t, A3) == p.a + 4 * i && X(t, A4) == i && X(t, A5) == i && X(t, A6) == Sext32(es[i])
  {
    hide Step, Sorting, X, Reaches, Imm, Sext32, Instruction, BranchTaken, KindOf;
    Listing();
    SortingRuns(s, p, es);
    Immediates();
    Conditions(X(s, A4), X(s, A1));
    Branching(s, p, es, 2, BLTU, A4, A1, 8, 4);
    var s1 := Step(s);
    SortingRuns(s1, p, es);
    Loading(s1, p, es, 4, A6, A3, 0, i);
    var s2 := Step(s1);
    SortingRuns(s2, p, es);
    Adding(s2, p, es, 5, A2, A3, 0);
    var s3 := Step(s2);
    SortingRuns(s3, p, es);
    Adding(s3, p, es, 6, A5, A4, 0);
    t := Step(s3);
    ReachesSelf(t); ReachesStep(s3, t); ReachesStep(s2, t); ReachesStep(s1, t); ReachesStep(s, t);
  }

  lemma Inside(s: State, p: Job, es: seq<u32>)
    requires Sorting(s, p, es)
    ensures !s.error && !s.aborted && WordsAt(s.mem, p.a, p.n) == es && Untouched(p.start, s.mem, p.a, p.n)
  {
    hide Program, Untouched, WordsAt;
  }

  /** Instructions 2 and 3: the program returns. */
  lemma Returning(s: State, p: Job, es: seq<u32>, i: nat) returns (t: State)
    requires Sorting(s, p, es) && At(s, p, 2) && p.n <= i && X(s, A4) == i
    ensures t.end && !t.error && !t.aborted && WordsAt(t.mem, p.a, p.n) == es && Untouched(p.start, t.mem, p.a, p.n)
    ensures Reaches(s, t)
  {
    hide Step, Sorting, X, Reaches, Imm, Untouched, WordsAt, Instruction, BranchTaken, KindOf, Before;
    Listing();
    SortingRuns(s, p, es);
    Immediates();
    Conditions(X(s, A4), X(s, A1));
    Branching(s, p, es, 2, BLTU, A4, A1, 8, 4);
    var s1 := Step(s);
    SortingRuns(s1, p, es);
    Ready(s1, p, es, 3);
    Inside(s1, p, es);
    ReturnAddress(s1, p, es);
    StepReturns(s1, Instruction(3));
    t := Step(s1);
    ReachesSelf(t); ReachesStep(s1, t); ReachesStep(s, t);
  }

  lemma ReturnAddress(s: State, p: Job, es: seq<u32>)
    requires Sorting(s, p, es)
    ensures s.regs[RA] == 0 && X0 as nat == 0 && X1 as nat == RA
  {
    hide Program, Untouched, WordsAt, Quiet;
  }

  /** The outer loop performs `SortFrom` and returns. */
  lemma {:induction false} Looping(s: State, p: Job, es: seq<u32>, i: nat) returns (t: State)
    requires Sorting(s, p, es) && At(s, p, 2) && 0 < i && X(s, A4) == i && (i < p.n ==> X(s, A3) == p.a + 4 * i)
    ensures t.end && !t.error && !t.aborted && WordsAt(t.mem, p.a, p.n) == SortFrom(es, i) && Untouched(p.start, t.mem, p.a, p.n)
    ensures Reaches(s, t)
    decreases p.n - i
  {
    hide Step, Sorting, X, Reaches, Untouched, WordsAt, Insert;
    SortingRuns(s, p, es);
    if i < p.n {
      var c := Taking(s, p, es, i);
      var d := Inserting(c, p, es, i, i, es[i]);
      t := Looping(d, p, Insert(es, i, es[i]), i + 1);
      ReachesOn(c, d, t);
      ReachesOn(s, c, t);
    } else {
      t := Returning(s, p, es, i);
    }
  }

  /**
    Where the job can be run: machine mode with interrupts off, the program and the array in place,
    zero in ra. The array lies below 2^31, so that addresses are the same on a 32-bit machine.
   */
  ghost predicate CanSort(s: State, code: nat, a: nat, n: nat)
  {
    && Quiet(s) && Job(code, a, n, s.mem).Ok()
    && s.nextPc == code && Program(s.mem, code)
    && X(s, X1) == 0 && X(s, A0) == a && X(s, A1) == n
  }

  /** What the program leaves behind. */
  ghost predicate HasSorted(m: Mem, t: State, a: nat, n: nat)
  {
    && t.end && !t.error && !t.aborted
    && Sorted(WordsAt(t.mem, a, n), n)
    && multiset(WordsAt(t.mem, a, n)) == multiset(WordsAt(m, a, n))
    && Untouched(m, t.mem, a, n)
  }

  lemma JobStarts(s: State, code: nat, a: nat, n: nat)
    requires CanSort(s, code, a, n)
    ensures var p := Job(code, a, n, s.mem); Sorting(s, p, WordsAt(s.mem, a, n)) && At(s, p, 0)
  {
    hide Quiet, Program, WordsAt, X;
  }

  lemma Starting(s: State, code: nat, a: nat, n: nat) returns (t: State)
    requires CanSort(s, code, a, n)
    ensures HasSorted(s.mem, t, a, n) && Reaches(s, t)
  {
    hide Step, X, Reaches, Imm, Untouched, WordsAt, CanSort, Instruction, Sorting, Sorted, Result, Computes, ImmediateValue, SortFrom;
    var p, es := Job(code, a, n, s.mem), WordsAt(s.mem, a, n);
    JobStarts(s, code, a, n);
    SortingRuns(s, p, es);
    Listing();
    Immediates();
    if n > 1 { AddSmall(s.cfg.Xlen, X(s, A0), 4); }
    FirstResult(s);
    Computing(s, p, es, 0, Result(s, Instruction(0)));
    var s1 := Step(s);
    SortingRuns(s1, p, es);
    Adding(s1, p, es, 1, A4, X0, 1);
    var s2 := Step(s1);
    t := Looping(s2, p, es, 1);
    ReachesStep(s1, t); ReachesStep(s, t);
    SortFromSorts(es, 1);
  }

  lemma FirstResult(s: State)
    ensures Computes(ADDI) && Result(s, Addi(A3, A0, 4)) == ImmediateValue(s.cfg.Xlen, ADDI, X(s, A0), Imm(4))
  {}

  ghost predicate HasSortedFrom(s: State, k: nat, a: nat, n: nat)
  {
    forall l: nat :: l >= k ==> HasSorted(s.mem, Run(s, l), a, n)
  }

  /**
    The program sorts: for every length, every contents and every place of the array, on 32- and
    64-bit machines, the loop ends after finitely many iterations, and running it longer changes nothing.
   */
  lemma ProgramSorts(s: State, code: nat, a: nat, n: nat)
    requires CanSort(s, code, a, n)
    ensures exists k: nat :: HasSortedFrom(s, k, a, n)
  {
    hide CanSort, Sorted, Untouched, WordsAt, Run;
    var t := Starting(s, code, a, n);
    var k: nat :| Run(s, k) == t;
    forall l: nat | l >= k ensures HasSorted(s.mem, Run(s, l), a, n) {
      RunCompose(s, k, l - k);
      HaltedRuns(t, l - k);
    }
    assert HasSortedFrom(s, k, a, n);
  }
}
