# A verified model of the RISC-V emulator

This project models the machine core of the emulator in Dafny and proves what its parts promise to
each other, up to the statement that the shipped insertion-sort guest program sorts when the step
loop runs it. It is built in layers, each file a module:

* **Memory.** `FlatMemory` is 2^32 bytes read and written in little-endian order; `MemoryWrapper.dfy`
  (module `PagedMemory`) is the lazily allocated, word-stored class, proved to be such a memory.
* **Address translation.** `Pte`, `PageWalk` (section 4.3.2 of the RISC-V Privileged Architecture without
  the permission check, as one recursion for Sv32 and Sv39), `Mmu` (the two walk loops) and
  `DefaultTables` (the loops that build the identity tables). `WalkMeaning` states the walk once more as a
  lookup in the bytes of the tables, by the four lowest bits of each entry.
* **Instructions.** `Encoding` (the format classes), `Decoder` (both decoders and an assembler that
  inverts the 32-bit one), `CompressedAssembler` (the compressed encoders, which the 16-bit decoder inverts),
  `Multiply`, `Alu`, `WForms`. `InstructionMeaning` is the table of what each instruction computes, in
  arithmetic, and `AccessMeaning` of what each load and store moves; `BitArithmetic` and `WordBits` lead from
  bit-vector operations to the bits of numbers.
* **Privilege.** `Privileged` (traps, returns, views of mstatus/mie/mip, interrupt selection, CSR
  instructions) and `PrivilegedProperties`. `CsrMeaning`, `TrapMeaning` and `LoopMeaning` state CSR
  instructions, traps, returns, interrupts, the system instruction words, the timer and the loop bit by bit.
* **The step loop.** `CpuModel` is one iteration of `RunCpu` as a function on states, and `RiscvCpu` is the
  class whose methods update registers, control registers and memory in place; each method is proved to
  do to the object's `State()` what the function of `CpuModel` does. `DataAccess`,
  `TranslatedStore`, `FaultingStore`, `CompleteStore`, `TranslatedLoad`, `TranslatedFetch`, `IdentityMapped`, `IdentityRun`,
  `CompressedExecution`, `Starvation`, `RunInvariant` and `NarrowRegisters` are properties of that
  iteration and of runs; `PagedExamples` has concrete accesses.
* **Guest programs.** `ProgramLayout` and `SortLoader` (the loaders), `MachineMode` and `Iteration` (one
  iteration without translation and with no interrupt enabled), `InsertionSort` (the algorithm on sequences) and `SortProgram`.
* **Devices.** `Peripheral` (timer and disk as a class) and `VirtioDisk` (the disk's side of a request, and
  sequences of requests as a block device); `VirtioMeaning` reads requests off the bytes of the queue, and
  `VirtioExamples` has concrete ones.

Conventions. Data, addresses and registers are natural numbers below a power of two, so every wrap-around
is a written-out remainder; instruction words and control registers are bit vectors. Where the emulator
itself would die (a failed assertion, an exception, a division by zero or an overflowing division in the
host) the model has an outcome of its own: the flag `aborted` of a CPU state, `DivisionByZero`,
`DivisionOverflow`, `Broken` or `Rejected`.

## Facts about the code that shape the statements

* A load first writes the cycle counter into memory at 0x200BFF8, so those eight bytes are outside every
  framing statement about loads.
* The second half of a split load is translated from the *physical* address of the first half, the second
  half of a split store from its own virtual address. `RightExactly` says when such a load still reads the
  program's own bytes; `SplitLoadTraps` is one that does not.
* A store that straddles two pages and faults in the second has already written its first half
  (`SecondPartFaults`, with the exact condition in `FaultWritesNothingExactly` and a concrete store in
  `StraddlingStoreHalfDone`).
* Trap saves the *effective* interrupt enable of the mode it comes from. The round-trip theorems are
  about effective enables; `RawMachineEnable` and `RawSupervisorEnable` say exactly when the bits themselves
  come back.
* An interrupt request refreshes the views of the enable register instead of those of the pending register;
  `PendingViewsAfterRequest` says exactly when the pending views are still right.
* The W divisions test all of rs2 for zero and divide by its low half; `DivisionsNarrow` is the exact condition.
* DIV and REM of the 32-bit machine look for the least 32-bit number only; a register holding the least 64-bit
  number divided by -1 overflows in the host (`NarrowDivisionEnds`).
* Link values, CSR reads, LWU and LD are not sign-extended on the 32-bit machine; `ExecuteNarrow` says exactly
  when an instruction leaves a register that is no sign-extended 32-bit value.
* Complementing the register number in CSRRCI clears bits 63 to 32 of the control register;
  `ClearImmediateExactly` is the exact condition.
* The available ring is read at `idx % n`; the slot of the used ring is not reduced modulo the queue length.
  `SlotExactly` and `EnteredInside` say exactly when the device stays inside the ring, `RingOverrun` that it
  leaves it after n requests, and `PastTheRing` is such a request.
* Root entries 4 to 511 of the default Sv39 table stay valid and point to page 0 (`BeyondFourGigabytes`);
  `BeyondExactly` says when an address beyond 4 GiB translates, `BeyondFaults` and `SampleHasTables` give a
  memory in which none does.
* AsmCLui encodes the immediate but not the register (`CompressedLui`).

## Model

| member | source | states |
|---|---|---|
| PagedMemory.MemoryWrapper.constructor | memory_wrapper.cpp:10-15 | a new memory reads as zero at every address, though no page is allocated |
| PagedMemory.MemoryWrapper.Read32 | memory_wrapper.cpp:62-72 | returns the little-endian word of the flat memory; an unallocated page reads as zero |
| PagedMemory.MemoryWrapper.Write32 | memory_wrapper.cpp:74-84 | changes exactly the four bytes of the word, allocating the page if needed; a page is allocated if and only if it has full size |
| PagedMemory.MemoryWrapper.ReadByte | memory_wrapper.cpp:17-23 | returns the byte of the flat memory at the address modulo 2^32 |
| PagedMemory.MemoryWrapper.WriteByte | memory_wrapper.cpp:25-38 | changes exactly one byte of the flat memory |
| PagedMemory.MemoryWrapper.Read16 | memory_wrapper.cpp:40-47 | returns the two bytes in little-endian order |
| PagedMemory.MemoryWrapper.Write16 | memory_wrapper.cpp:49-60 | changes exactly two bytes |
| PagedMemory.MemoryWrapper.Read64 | memory_wrapper.cpp:86-93 | returns the eight bytes in little-endian order |
| PagedMemory.MemoryWrapper.Write64 | memory_wrapper.cpp:95-100 | changes exactly eight bytes |
| FlatMemory.WriteAt | memory_wrapper.cpp:74-100 | for every address: a write of n bytes sets the byte at distance k below n to byte k of the value and leaves every other byte alone |
| FlatMemory.ReadOwnWrite | memory_wrapper.cpp:62-100 | a read returns what a write of the same width left at the same address, also across the end of memory |
| FlatMemory.ReadOtherWrite | memory_wrapper.cpp:62-100 | a read is not changed by a write to bytes it does not cover |
| FlatMemory.ReadAlias | memory_wrapper.cpp:62-72 | addresses equal modulo 2^32 name the same bytes |
| PageTableEntry.AccessBits | pte.cpp:81-87 | setting A and D leaves every other bit of an entry as it was, and an entry that has them is left alone |
| PageTableEntry.AccessIsSetBits | pte.cpp:81-87 | SetA and SetD in turn give the entry with its access bits set |
| MemoryManagement.Mmu.VirtualToPhysical | Mmu.cpp:20-34 | for every address, satp and privilege: the address, the fault flag, the faulting address and the memory afterwards are those of the recursive walk; on a fault nothing is written |
| MemoryManagement.Mmu.VirtualToPhysical64 | Mmu.cpp:36-110 | the Sv39 walk is the recursion of section 4.3.2, with the fault for misaligned superpages and the write-back of A and D on success only |
| MemoryManagement.Mmu.VirtualToPhysical32 | Mmu.cpp:112-180 | the same for Sv32 |
| MemoryManagement.Mmu.WalkLoop64 | Mmu.cpp:60-87 | the loop stops at the entry the recursion finds, or faults where it faults |
| MemoryManagement.Mmu.WalkLoop32 | Mmu.cpp:127-156 | the same for the two-level loop, with its 32-bit entry address |
| MemoryManagement.PpnTruncated | pte.cpp:142-144 | cutting the 44-bit page number to 32 bits never changes a walk |
| MemoryManagement.Misaligned39 | Mmu.cpp:88-94 | the two field tests of the source are the alignment test of step 6 |
| MemoryManagement.Assemble39 | Mmu.cpp:102-109 | the address put together from fields is the address of step 8 |
| PageWalk.WalkLocal | Mmu.cpp:60-87 | a walk depends only on the entries it reads, and not on their A and D bits |
| PageWalk.FoundIsEntry | Mmu.cpp:64-94 | a successful walk ends at an aligned address that holds a valid, aligned leaf |
| PageWalk.TranslateKeepsTables | Mmu.cpp:95-100 | a translation changes memory in access bits only |
| PageWalk.TranslateWritesUsed | Mmu.cpp:95-100 | a translation writes only into an entry its own walk read |
| PageWalk.WriteBackInvisible | Mmu.cpp:64-110 | after any sequence of translations, through any tables, also tables that map themselves, a translation gives the address or fault it would have given at once |
| PageWalk.PageContiguous | Mmu.cpp:102-109 | inside one page, also a superpage, physical addresses are as far apart as virtual ones |
| PageWalk.NotCanonical | Mmu.cpp:36-110 | addresses equal modulo 2^39 have the same Sv39 walk: the code does not ask for canonical addresses |
| PageWalk.NotCanonicalTranslation | Mmu.cpp:36-110 | so they fault together, and where they do not they have the same translation |
| WalkMeaning.TranslationFollows | Mmu.cpp:36-180 | for any tables: an entry whose low four bits are 3, 7, 9, 11 or 15 is a page at frame * 4096 plus the offset in its region, one with 1 points to the next table, any other faults, and so do a misaligned page and a pointer at level 0; on success A, and for stores D, are set in the entry of the page, and no other bit or byte changes |
| WalkMeaning.EntryMeans | pte.cpp:114-126 | the same of one entry frame * 1024 + flags at any level |
| WalkMeaning.MmuFollows | Mmu.cpp:20-58 | which table satp selects, from its mode, address space and root fields on either machine |
| WalkMeaning.ExecuteOnlyTranslates | tests/pte_test.cpp:82-96 | a concrete superpage with V and X only, which translates in both schemes |
| DefaultTables.SetDefaultMmuTable32 | RISCV_Emulator.cc:476-506 | the loops write the complete Sv32 identity tables and touch nothing outside them |
| DefaultTables.SetDefaultMmuTable64 | RISCV_Emulator.cc:513-565 | the loops write the Sv39 tables, root entries 4 to 511 being valid pointers to page 0, and touch nothing outside them |
| DefaultTables.FillIdentities32 | RISCV_Emulator.cc:494-504 | the nested loops map every one of the 2^20 pages to itself |
| DefaultTables.BuildLevel1 | RISCV_Emulator.cc:534-547 | the nested loops link the level-1 tables to the level-0 tables |
| DefaultTables.BuildLevel0 | RISCV_Emulator.cc:552-563 | the three nested loops map every one of the 2^20 pages to itself |
| DefaultTables.SatpSelects | RISCV_Emulator.cc:646-653 | the satp values select these tables in every mode but machine mode |
| DefaultTables.Identity32 | RISCV_Emulator.cc:476-506 | with the Sv32 tables every address goes to itself modulo 2^32 without fault, also after any sequence of read and write translations |
| DefaultTables.Identity64 | RISCV_Emulator.cc:513-565 | with the Sv39 tables every address whose low 39 bits are below 2^32 goes to its low 39 bits without fault, also after any sequence of translations; below 2^32 that is the address itself |
| DefaultTables.UsesTables32 | RISCV_Emulator.cc:476-506 | the walk of any address through the Sv32 tables reads entries of these tables only |
| DefaultTables.UsesTables64 | RISCV_Emulator.cc:513-565 | the walk of an address below 2^32 through the Sv39 tables reads entries of these tables only |
| DefaultTables.BeyondFourGigabytes | RISCV_Emulator.cc:521-532 | every other address continues its walk in page 0, because the root entry kept its valid bit |
| DefaultTables.BeyondExactly | RISCV_Emulator.cc:521-532 | there an address faults if and only if the walk from page 0 does |
| DefaultTables.BeyondFaults | RISCV_Emulator.cc:521-532 | with page 0 clear every address beyond 4 GiB faults |
| DefaultTables.SampleHasTables | RISCV_Emulator.cc:513-565 | a concrete memory with the Sv39 tables and a clear page 0 |
| Encoding.RType.SetValue | instruction_encdec.cc:8-22 | taking any word apart and putting it together gives the word |
| Encoding.IType.SetValue | instruction_encdec.cc:24-42 | the same, except that a shift instruction loses bits 31 to 26 |
| Encoding.SType.SetValue | instruction_encdec.cc:44-59 | taking any word apart and putting it together gives the word |
| Encoding.BType.SetValue | instruction_encdec.cc:61-79 | taking any word apart and putting it together gives the word |
| Encoding.UType.SetValue | instruction_encdec.cc:81-92 | taking any word apart and putting it together gives the word |
| Encoding.JType.SetValue | instruction_encdec.cc:94-110 | taking any word apart and putting it together gives the word |
| Encoding.IFields | instruction_encdec.cc:112-128 | the field getters read back what the I encoder put in, the immediate sign-extended |
| Encoding.SFields | instruction_encdec.cc:182-186 | the same for the S encoder and its split immediate |
| Encoding.BFields | instruction_encdec.cc:159-165 | the same for the B encoder and its permuted immediate |
| Encoding.JFields | instruction_encdec.cc:167-180 | the same for the J encoder and its permuted immediate |
| Decoder.AssembleThenDecode | RISCV_cpu.cc:1385-1608 | for every operation and all operands its format can hold, decoding the assembled word gives the operation and the operands it uses |
| Decoder.CompressedIsAbbreviation | RISCV_cpu.cc:1610-1860 | every compressed word the decoder accepts has a 32-bit word with the same operation and the same used operands |
| CompressedAssembler.DecodesExactly | RISCV_cpu.cc:1610-1860 | for every 16-bit word and every instruction: the decoder gives the instruction if and only if the word is its compressed encoding, each form with its own encoder, registers and immediates, C.LUI with the register its encoder leaves out |
| CompressedAssembler.LoadDecodes | tests/assembler.cc:532-785 | decoding what the encoders of C.LW, C.LD, C.LWSP and C.LDSP give yields the load, for all registers and offsets they can hold |
| CompressedExecution.CompressedExecutes | RISCV_cpu.cc:944-1121 | from any state, executing the compressed word and executing that 32-bit word give the same memory, control registers, flags and registers; link register and fall-through address differ by the length only |
| MachineMode.ExecuteUsed | RISCV_cpu.cc:961-1116 | execution depends on the operands the operation uses and on no others |
| CompressedAssembler.CompressedLui | tests/assembler.cc:714-719 | assembling C.LUI and decoding it gives the instruction back if and only if its register is x0 |
| InstructionMeaning.ExecuteMeans | RISCV_cpu.cc:961-1116 | for any state, on both machines: rd receives the sum, difference, product, quotient or floor by a power of two, bits, comparison or address of the table, a branch goes where its comparison of numbers holds, a jump links and goes to its target; nothing else changes |
| InstructionMeaning.WordMeans | RISCV_cpu.cc:942-1121 | the same of a fetched instruction word, with what the loop does after it |
| InstructionMeaning.OperationGives | RISCV_cpu.cc:346-396 | the register operations: sums modulo 2^xlen, bit k of AND, OR and XOR from bits k, shifts as product, quotient and floor by 2^amount |
| InstructionMeaning.ImmediateGives | RISCV_cpu.cc:398-423 | the same of the immediate operations, the immediate being sign-extended |
| InstructionMeaning.ShiftGives | RISCV_cpu.cc:425-469 | the same of the shifts by an immediate |
| InstructionMeaning.BranchesMean | RISCV_cpu.cc:320-344 | each branch goes to pc + imm exactly if its two registers compare so, as signed or unsigned numbers |
| InstructionMeaning.MultiplicationMeans | RISCV_cpu.cc:659-777 | the high products and divisions set rd, or end the emulator where the host cannot divide |
| BitArithmetic.LogicBits | RISCV_cpu.cc:363-371 | bit k of a conjunction, disjunction or difference of words, counted in their numbers |
| AccessMeaning.LoadMeans | RISCV_cpu.cc:471-524 | untranslated, each load gives the two's complement or unsigned number of its 1, 2, 4 or 8 bytes at rs1 + imm, and of memory only the copy of mtime changes |
| AccessMeaning.StoreMeans | RISCV_cpu.cc:526-580 | untranslated, each store writes its 1, 2, 4 or 8 low bytes of rs2 from rs1 + imm on, and no other byte |
| Multiply.MulhIsHighHalf | RISCV_cpu.cc:608-623 | for all operands: the floor of the signed product divided by 2^64, in spite of the mixed signed and unsigned limbs |
| Multiply.MulhsuIsHighHalf | RISCV_cpu.cc:625-640 | the same for signed by unsigned |
| Multiply.MulhuIsHighHalf | RISCV_cpu.cc:642-657 | the same for unsigned by unsigned |
| Alu.SignedDivision64 | RISCV_cpu.cc:692-776 | DIV and REM belong together as section 7.2 of the Unprivileged ISA asks: truncation, sign of the remainder, zero divisor, overflow |
| Alu.SignedDivision32 | RISCV_cpu.cc:692-776 | the same on sign-extended RV32 registers, with sign-extended results |
| Alu.UnsignedDivision64 | RISCV_cpu.cc:692-776 | the same for DIVU and REMU |
| Alu.UnsignedDivision32 | RISCV_cpu.cc:692-776 | the same for DIVU and REMU on RV32 registers |
| Alu.NarrowDivisionEnds | RISCV_cpu.cc:692-741 | on the 32-bit machine DIV and REM overflow in the host if and only if a register holds the least 64-bit number and is divided by -1, which no sign-extended register does |
| Alu.HighProducts32 | RISCV_cpu.cc:671-691 | MULH, MULHSU and MULHU of sign-extended RV32 registers are the high 32 bits of the signed, mixed and unsigned product |
| WForms.OperationsNarrow | RISCV_cpu.cc:346-396 | ADDW, SUBW, SLLW, SRLW and SRAW of any registers are the RV32 instruction on the sign-extended low halves, the logical shift in SRAW included |
| WForms.ImmediateNarrows | RISCV_cpu.cc:398-423 | ADDIW is ADDI of RV32 on the sign-extended low half |
| WForms.ShiftsNarrow | RISCV_cpu.cc:425-469 | SLLIW, SRLIW and SRAIW with amounts below 32 are the RV32 shifts |
| WForms.ProductNarrows | RISCV_cpu.cc:664-670 | MULW is MUL of RV32 on the sign-extended low halves |
| WForms.DivisionsNarrow | RISCV_cpu.cc:710-764 | the W divisions agree with RV32 unless rs2 is nonzero with a zero low half; then, and only then, the host divides by zero |
| WForms.LowHalfZero | RISCV_cpu.cc:710-764 | with rs2 = 2^32 the emulator dies where RV32 divides by zero as section 7.2 says |
| PrivilegedProperties.MachineRoundTrip | RISCV_cpu.cc:162-278 | a machine trap from any mode and MRET restore mode, return address and effective enables, and leave the supervisor trap state alone |
| PrivilegedProperties.NestedRoundTrip | RISCV_cpu.cc:1350-1383 | a supervisor trap, any number of complete machine traps with MRET inside its handler, and SRET restore mode, return address and effective enables |
| PrivilegedProperties.RawMachineEnable | RISCV_cpu.cc:257-264 | after a machine trap and MRET the bit MIE is what it was if and only if it was set or the trap came from machine mode |
| PrivilegedProperties.RawSupervisorEnable | RISCV_cpu.cc:233-240 | after a supervisor trap with visits to machine mode and SRET the bit SIE is what it was if and only if it was set or the trap came from supervisor mode |
| PrivilegedProperties.RawEnablesChange | RISCV_cpu.cc:233-264 | a state from which a trap and return leave MIE, and one and return leave SIE, set though it was clear |
| PrivilegedProperties.VisitsSetMachineEnable | RISCV_cpu.cc:1350-1365 | after any number of machine visits from below machine mode MIE is set if and only if there was a visit or it was set before |
| PrivilegedProperties.ViewsAlwaysAgree | RISCV_cpu.cc:1205-1292 | after any sequence of traps, returns, CSR instructions and interrupt requests the views of mstatus and mie are the masked values of the two registers |
| CsrMeaning.ExecuteCsr | RISCV_cpu.cc:290-318 | bit by bit: CSRRW leaves the operand, CSRRS a bit if and only if it was set or the operand has it, CSRRC and CSRRCI if and only if it was set and the operand lacks it (CSRRCI also clears bits 63 to 32); the immediate forms take the register's number; rd receives the old value and no other register changes, except where the register is a view |
| CsrMeaning.StatusWrite | RISCV_cpu.cc:1230-1250 | a write through mstatus, sstatus or ustatus: every bit of mstatus is fixed, written or kept as the mask of the view says, the three registers show it under their masks, and no other register changes |
| CsrMeaning.EnableWrite | RISCV_cpu.cc:1279-1292 | the same for mie and its views |
| CsrMeaning.PendingWrite | RISCV_cpu.cc:1258-1271 | the same for mip and its views |
| CsrMeaning.WordMeans | RISCV_cpu.cc:946-1121 | the same of a fetched instruction word, bits 31 to 20 naming the register |
| TrapMeaning.TrapAsDescribed | RISCV_cpu.cc:162-278 | from any state, for any cause: mode, cause with the interrupt bit 31 or 63, return address, trap value, handler address, every bit of mstatus and mip, the views, and no other register |
| TrapMeaning.MretMeans | RISCV_cpu.cc:1350-1365 | every bit of mstatus after MRET, the mode from bits 11 and 12, the address from mepc |
| TrapMeaning.SretMeans | RISCV_cpu.cc:1367-1383 | every bit of mstatus after SRET, the mode from bit 8, the address from sepc |
| TrapMeaning.SelectMeans | RISCV_cpu.cc:1138-1159 | the interrupt taken is the one of the lowest number that is pending, enabled and whose mode's enable is on, if there is one |
| TrapMeaning.RequestMeans | RISCV_cpu.cc:902-906 | a request sets its bit of mip and no other |
| LoopMeaning.CpuTrapMeans | RISCV_cpu.cc:162-278 | the same trap of the whole machine: which causes there are, the trap value, the record of page faults |
| LoopMeaning.FaultTwice | RISCV_cpu.cc:178-190 | of two page faults one after the other the second ends the run if and only if it is at the same address |
| LoopMeaning.EffectiveMeans | RISCV_cpu.cc:57-66 | translation works in the mode in MPP exactly in machine mode with MPRV |
| LoopMeaning.SystemWordMeans | RISCV_cpu.cc:582-606 | the words of ECALL, EBREAK, SRET and MRET trap, do nothing and return, from any state |
| LoopMeaning.FenceWordMeans | RISCV_cpu.cc:598-602 | the word of SFENCE.VMA does nothing, whatever its registers |
| LoopMeaning.TicksMean | PeripheralEmulator.cpp:205-214 | over any number of cycles the timer line is requested if and only if the counter meets the compare value in one of them |
| LoopMeaning.LinesMean | RISCV_cpu.cc:881-900 | the disk and the UART request line 9, and their flags are taken back |
| LoopMeaning.DeviceWriteMeans | PeripheralEmulator.cpp:34-58 | a store is remembered if and only if one of its bytes is a disk register, and reloads the timer if and only if one is in the compare register |
| LoopMeaning.StepMeans | RISCV_cpu.cc:930-1121 | one iteration: tick, device lines, the lowest due interrupt or else fetch, instruction page fault or execution |
| PrivilegedProperties.ClearImmediateExactly | RISCV_cpu.cc:290-318 | CSRRCI clears the bits its operand names and no others if and only if bits 63 to 32 of the register are clear |
| PrivilegedProperties.ClearImmediateLosesMode | RISCV_cpu.cc:290-318 | clearing bit 0 of an Sv39 satp value clears its mode too |
| PrivilegedProperties.PendingViewsAfterRequest | RISCV_cpu.cc:902-906 | after an interrupt request the views of mip agree if and only if the interrupt was pending already |
| PrivilegedProperties.PendingViewStale | RISCV_cpu.cc:902-906 | a state in which the timer request leaves a stale view of mip |
| PrivilegedProperties.PendingViewsRefreshed | RISCV_cpu.cc:1258-1271 | any CSR instruction on a view of mip brings them up to date |
| PrivilegedProperties.PendingAlwaysClose | RISCV_cpu.cc:902-912 | after any sequence of traps, returns, CSR instructions and interrupt requests the views of mip are right outside bits 7 and 9 |
| RunInvariant.RunKeepsViews | RISCV_cpu.cc:925-1136 | in every state of every run of the whole machine the views of mstatus and mie agree, and those of mip outside bits 7 and 9, which interrupt requests set |
| RunInvariant.InitialViews | RISCV_cpu.cc:32-43 | they agree in the state a new CPU starts in |
| NarrowRegisters.ExecuteNarrow | RISCV_cpu.cc:961-1116 | on the 32-bit machine an instruction keeps every register sign-extended if and only if it is no jump with a link value, no CSR read of a value and no LWU or LD of data that is not |
| NarrowRegisters.BareLoadBreaks | RISCV_cpu.cc:516-523 | untranslated, LD breaks it if and only if the doubleword is not sign-extended, LWU if and only if bit 31 is set |
| NarrowRegisters.TranslatedLoadBreaks | RISCV_cpu.cc:495-523 | the same through any tables, of the data the load finds |
| NarrowRegisters.LinkBreaks | RISCV_cpu.cc:1015 | a concrete JAL that leaves 2^31 + 4 in ra |
| NarrowRegisters.NarrowExactly | RISCV_cpu.cc:1015 | a link value is sign-extended if and only if it is below 2^31 or in the uppermost 2 GiB |
| NarrowRegisters.StepNarrow | RISCV_cpu.cc:930-1121 | an iteration keeps the registers sign-extended if and only if it executes no such instruction |
| NarrowRegisters.RunNarrow | RISCV_cpu.cc:925-1136 | and so does every run that executes none |
| Starvation.NoStarvation | RISCV_cpu.cc:925-936 | when only causes 1, 7 and 9 are pending and enabled, at most three iterations in a row take an interrupt, whatever is delegated and whatever the timer does |
| Starvation.ThreeInARow | RISCV_cpu.cc:1138-1159 | three in a row do happen: the bound is met |
| Starvation.SampleTakesThree | RISCV_cpu.cc:1138-1159 | a concrete state, on either machine, from which three iterations in a row take an interrupt |
| Starvation.TakingStep | RISCV_cpu.cc:931-936 | an iteration that takes an interrupt ends in a handler in which the same kind of interrupt is off; if it began in a supervisor handler, it took a timer interrupt, which is no longer pending |
| CpuModel.AccessWidthBounds | RISCV_cpu.cc:547-555 | the split point is the distance to the next 8-byte boundary, or the whole width |
| DataAccess.StoreBare | RISCV_cpu.cc:557-580 | an untranslated store of any width at any alignment writes the bytes of its width at its address, in spite of the split and the mask |
| DataAccess.LoadBare | RISCV_cpu.cc:495-524 | an untranslated load reads the bytes of its width at its address, after the copy of mtime has been refreshed |
| DataAccess.LoadExtends | RISCV_cpu.cc:516-520 | what is loaded means the two's complement or unsigned number of its width |
| DataAccess.StoreThenLoad | RISCV_cpu.cc:495-580 | a load after a store of the same width at the same address returns the value truncated and extended as the instruction says; no other byte changes, mtime aside |
| TranslatedStore.StoreTranslated | RISCV_cpu.cc:557-580 | a translated store puts byte k of rs2 at the translation of va+k for every k, also across two pages with unrelated frames; every other byte keeps its value up to access bits of entries its walks read |
| TranslatedStore.UnitPlaces | Mmu.cpp:36-180 | the bytes of an access inside one 8-byte unit go to consecutive places |
| TranslatedStore.StoreFaults | RISCV_cpu.cc:560-564 | a store whose first address does not translate traps with cause 15 and writes nothing |
| CompleteStore.StoreCompletes | RISCV_cpu.cc:557-580 | any store through any tables that does not fault, also one that writes into the tables of its own second part: byte k goes to the translation of va+k, for the second part in the memory the first part leaves; all else changes in access bits of entries the two walks use |
| CompleteStore.InitiallyExactly | RISCV_cpu.cc:569-576 | such a store goes to the initial translations of its bytes if and only if it is not split or the second address translates as before |
| CompleteStore.AgreesWhenUnseen | RISCV_cpu.cc:569-576 | it does where the first part leaves what translation sees of the second walk's entries as it was |
| PagedExamples.StoreRedirectsItself | RISCV_cpu.cc:569-576 | a halfword whose first byte changes the entry of the next page, so that its second byte goes to another frame |
| PagedExamples.RedirectInput | RISCV_cpu.cc:569-576 | a concrete machine on which that store happens |
| FaultingStore.SecondPartFaults | RISCV_cpu.cc:567-575 | a store whose second address does not translate traps with cause 15 at that address, and memory is what the first part has written |
| FaultingStore.FaultWritesNothingExactly | RISCV_cpu.cc:557-580 | a store that faults changes nothing but access bits of entries it used if and only if its first translation faults or the bytes of the first part were in memory already |
| PagedExamples.StraddlingStoreHalfDone | RISCV_cpu.cc:567-575 | a word store across the end of a mapped area that traps and leaves its first two bytes behind |
| PagedExamples.StraddlingStoreInput | RISCV_cpu.cc:567-575 | a concrete 32-bit machine on which that store happens |
| TranslatedLoad.LoadTranslated | RISCV_cpu.cc:495-524 | a load of any width at any alignment through any tables whose translations do not fault: rd receives the bytes at the translations of va+k, and for the second part of pa+k; memory changes in access bits of entries its own walks use and nowhere else |
| TranslatedLoad.RightExactly | RISCV_cpu.cc:507-508 | a load reads every byte where the program's address for it leads if and only if it is not split or the translations of va+n and pa+n agree |
| TranslatedLoad.LoadReadsOwnBytes | RISCV_cpu.cc:495-524 | so a load inside one 8-byte unit, or one whose parts agree, finds byte k at the translation of va+k |
| TranslatedLoad.LoadFaults | RISCV_cpu.cc:499-512 | every other load traps with cause 13, at va or at the address pa+n the code makes up, and changes no register and of memory only access bits of entries its own walks use |
| PagedExamples.SplitLoadTraps | RISCV_cpu.cc:508 | a word load at 5 that traps at 0x400008 |
| PagedExamples.SplitLookup | RISCV_cpu.cc:508 | although all four of its bytes are mapped |
| PagedExamples.SplitLoadInput | RISCV_cpu.cc:508 | a concrete 32-bit machine on which that load happens |
| TranslatedFetch.FetchTranslated | RISCV_cpu.cc:93-108 | through any tables the fetch returns the halfwords at the translations of pc and pc+2, also across two unrelated frames |
| TranslatedFetch.FetchWritesUsed | RISCV_cpu.cc:93-108 | the fetch changes memory in access bits of the entries its one or two walks use and nowhere else |
| TranslatedFetch.FetchFaults | RISCV_cpu.cc:93-108 | otherwise it notes a fault, at pc or at pc+2 |
| IdentityMapped.StoreThroughDefaultTables | RISCV_cpu.cc:557-580 | behind the default tables a store away from them does what an untranslated store does; in the tables at most access bits change, and they stay in place |
| IdentityMapped.LoadThroughDefaultTables | RISCV_cpu.cc:495-524 | behind the default tables a load away from them yields the bytes at its address, although the second half of a split load translates a physical address |
| IdentityMapped.TablesAreInvisible | RISCV_Emulator.cc:646-653 | a machine behind the default tables and one without translation that start alike end alike after any sequence of loads and stores away from the tables: same registers, same device record, same memory outside the tables |
| IdentityRun.StepSim | RISCV_cpu.cc:930-1121 | an iteration of a machine behind the default tables does what that of the same machine without translation does: ticks, interrupts, traps, returns, fetches and all instructions, as long as it stays away from the tables and from satp |
| IdentityRun.RunSim | RISCV_cpu.cc:925-1136 | whole runs: same registers, program counter, devices and control registers but satp, and the same memory outside the tables |
| IdentityRun.PagingStartsAlike | RISCV_Emulator.cc:640-653 | turning paging on with the tables built gives such a pair of machines, on 32 and 64 bits |
| IdentityRun.BuiltIsAlike | RISCV_Emulator.cc:476-565 | what the table builders leave is such a memory |
| MachineMode.FetchUntranslated | RISCV_cpu.cc:93-108 | untranslated, in machine mode or in any mode without paging, the fetch returns the 16- or 32-bit instruction at pc, also where it straddles two words |
| ProgramLayout.AddCmd | tests/load_assembler.cc:9-15 | writes the four bytes of the command and returns the next address |
| ProgramLayout.AddCmdCType | tests/load_assembler.cc:17-21 | writes the two bytes of the command and returns the next address |
| ProgramLayout.LayoutThenFetch | tests/load_assembler.cc:9-21 | any list of mixed 16- and 32-bit instructions that fits in memory, laid out from any even address, is fetched as the same list |
| SortLoader.LoadAssemblerSort | tests/load_assembler.cc:38-66 | lays out the nineteen instructions and returns the address behind them |
| SortLoader.LoadedIsProgram | tests/load_assembler.cc:38-66 | what it leaves in memory is the program, with every other byte as before |
| InsertionSort.InsertSorts | tests/load_assembler.cc:50-59 | the inner loop leaves a sorted prefix sorted with the new element in it |
| InsertionSort.SortFromSorts | tests/load_assembler.cc:44-64 | the two loops sort, and permute |
| SortProgram.Inserting | tests/load_assembler.cc:50-64 | from the head of the inner loop the step loop reaches the head of the outer loop having inserted one element |
| SortProgram.Looping | tests/load_assembler.cc:44-64 | from the head of the outer loop the step loop reaches the end of the run having sorted |
| SortProgram.ProgramSorts | tests/load_assembler.cc:38-66 | for every length, contents and place of the array, on 32- and 64-bit machines, in any mode without translation and with no interrupt enabled: after finitely many iterations the run has ended without error, the array is sorted and a permutation, and no other byte has changed, mtime aside; running on changes nothing |
| SortLoader.JobsExist | tests/load_assembler.cc:38-66 | loading the program into any memory gives a state the sorting theorem applies to, with the array still what it was |
| SortLoader.LoadedProgramSorts | tests/load_assembler.cc:38-66 | for any memory and any layout of code and array: from the loaded memory the run ends with the array of that memory sorted and permuted |
| SortLoader.RunSort | tests/load_assembler.cc:38-66 | the CPU object running the loaded program, given enough iterations, ends without error with the array sorted in place |
| Cpu.RiscvCpu.constructor | RISCV_cpu.cc:15-43 | a new CPU is in machine mode with zero registers and the initial control registers |
| Cpu.RiscvCpu.Trap | RISCV_cpu.cc:162-278 | the whole state afterwards is that of the trap function: delegation, cause, return address, saved enables, handler address, pending bit, fault record |
| Cpu.RiscvCpu.Mret | RISCV_cpu.cc:1350-1365 | mode, enables and program counter are restored from MPP, MPIE and MEPC |
| Cpu.RiscvCpu.Sret | RISCV_cpu.cc:1367-1383 | mode, enables and program counter are restored from SPP, SPIE and SEPC |
| Cpu.RiscvCpu.CheckPendingInterrupt | RISCV_cpu.cc:1138-1159 | takes the pending and enabled interrupt of highest priority, or changes nothing |
| Cpu.RiscvCpu.UpdateStatus | RISCV_cpu.cc:1220-1228 | brings the register behind a written view, and all its views, up to date |
| Cpu.RiscvCpu.UpdateMstatus | RISCV_cpu.cc:1230-1250 | merges the view into mstatus under its mask, keeps the hardwired fields, refreshes the views |
| Cpu.RiscvCpu.UpdateInterruptEnable | RISCV_cpu.cc:1279-1292 | the same for mie |
| Cpu.RiscvCpu.UpdateInterruptPending | RISCV_cpu.cc:1258-1271 | the same for mip |
| Cpu.RiscvCpu.SetInterruptPending | RISCV_cpu.cc:902-906 | sets the pending bit and refreshes the views of mie |
| Cpu.RiscvCpu.ClearInterruptPending | RISCV_cpu.cc:908-912 | clears the pending bit and refreshes the views of mip |
| Cpu.RiscvCpu.CsrsInstruction | RISCV_cpu.cc:290-318 | reads and writes the control register, rd receives the old value, views follow |
| Cpu.RiscvCpu.SystemInstruction | RISCV_cpu.cc:582-606 | ECALL traps, MRET and SRET return, EBREAK and SFENCE.VMA do nothing, anything else is an error |
| Cpu.RiscvCpu.TimerTick | RISCV_cpu.cc:870-879 | advances the timer and requests interrupt 7 when it fires |
| Cpu.RiscvCpu.InterruptCheck | RISCV_cpu.cc:881-900 | turns the device flags into requests of interrupt 9 |
| Cpu.RiscvCpu.VirtualToPhysical | RISCV_cpu.cc:57-74 | translates in the effective mode under MPRV and notes a fault |
| Cpu.RiscvCpu.LoadWd | RISCV_cpu.cc:129-145 | the byte loop and the aligned accesses return the little-endian value; no alignment assertion fails |
| Cpu.RiscvCpu.StoreWd | RISCV_cpu.cc:147-160 | the byte loop and the aligned accesses write exactly the bytes of the value; no alignment assertion fails |
| Cpu.RiscvCpu.LoadInstruction | RISCV_cpu.cc:495-524 | the whole state afterwards is that of the load function: mtime, two-part translation, faults, extension |
| Cpu.RiscvCpu.StoreInstruction | RISCV_cpu.cc:557-580 | the whole state afterwards is that of the store function: two-part translation, faults, device record |
| Cpu.RiscvCpu.Execute | RISCV_cpu.cc:962-1116 | the switch of RunCpu does to the object what the execution function does to its state |
| Cpu.RiscvCpu.LoadCmd | RISCV_cpu.cc:93-108 | the fetched word and the state, through two translations where the instruction straddles two words |
| Cpu.RiscvCpu.Step | RISCV_cpu.cc:930-1121 | one turn of the loop: tick, interrupts, fetch, fault, decode, execute, loop check, x0 |
| Cpu.RiscvCpu.RunCpu | RISCV_cpu.cc:925-1136 | the loop leaves the object in the state of the run function and returns its error flag |
| Peripheral.PeripheralEmulator.TimerTick | PeripheralEmulator.cpp:205-214 | one cycle of the timer, the compare register being read again after a store to it |
| Peripheral.PeripheralEmulator.MemoryMappedValueUpdate | PeripheralEmulator.cpp:67 | writes the cycle counter to the eight bytes of mtime and nowhere else |
| Peripheral.PeripheralEmulator.CheckDeviceWrite | PeripheralEmulator.cpp:34-58 | remembers a store to the disk registers and to mtimecmp |
| Peripheral.PeripheralEmulator.DiscAccess | PeripheralEmulator.cpp:357-370 | the copy loops replace exactly the slice of the disk image, or exactly the bytes of the buffer |
| Peripheral.PeripheralEmulator.ProcessDiscAccess | PeripheralEmulator.cpp:302-346 | follows the three descriptors, moves the data and sets the status byte, and fails exactly where the source asserts |
| Peripheral.PeripheralEmulator.ProcessUsedBuffer | PeripheralEmulator.cpp:372-380 | enters the chain in the used ring and advances its index modulo 2^16 |
| Peripheral.PeripheralEmulator.VirtioDiskAccess | PeripheralEmulator.cpp:278-291 | serves the chain at the head of the available ring |
| Peripheral.PeripheralEmulator.VirtioEmulation | PeripheralEmulator.cpp:229-260 | reacts to a store to the queue registers: queue size, request, interrupt |
| VirtioDisk.ServeWellFormed | PeripheralEmulator.cpp:262-380 | a properly set up write makes the disk slice equal the buffer, a read makes the buffer equal the slice; status byte 0, used index plus one, ring entry filled in, and no other byte of memory or disk changes |
| VirtioDisk.RequestsRefineBlockDevice | PeripheralEmulator.cpp:278-370 | any sequence of properly set up requests, with arbitrary guest activity in between, leaves the disk as a block device would |
| VirtioDisk.ReadAfterWrite | PeripheralEmulator.cpp:357-370 | a read returns the bytes of the last write to the same sectors, whatever requests for other sectors came in between |
| VirtioDisk.UsedIndexCounts | PeripheralEmulator.cpp:372-380 | the used index counts the requests modulo 2^16 |
| VirtioMeaning.ServePublished | PeripheralEmulator.cpp:262-380 | if the available index is i and slot i % n of the ring holds h, the chain of three descriptors at h is served: its header's direction and sector, its buffer, its status byte, a used entry for h, the used index plus one, and no other byte |
| VirtioMeaning.WellFormedExactly | PeripheralEmulator.cpp:302-346 | a request is properly set up if and only if the flags, lengths and places in the bytes of the published chain are |
| VirtioMeaning.PublishedRefineBlockDevice | PeripheralEmulator.cpp:278-370 | a driver's list of heads, published at available indices that count on, is the list of block operations the disk does |
| VirtioMeaning.RegisterStore | PeripheralEmulator.cpp:229-260 | what a word stored to each disk register does |
| VirtioDisk.SlotExactly | PeripheralEmulator.cpp:372-380 | the slot is the one of the index modulo n, and lies inside the used ring, if and only if the index is below n |
| VirtioDisk.EnteredInside | PeripheralEmulator.cpp:372-380 | request i of a sequence is entered inside the ring if and only if the starting index plus i, modulo 2^16, is below n |
| VirtioDisk.RingOverrun | PeripheralEmulator.cpp:372-380 | from index 0 the first n requests are entered inside an n-entry ring, and the next one right behind it |
| VirtioExamples.PastTheRing | PeripheralEmulator.cpp:372-380 | a properly set up request of a ring of eight whose entry overwrites the bytes behind the ring |
| VirtioExamples.NineReads | PeripheralEmulator.cpp:372-380 | nine concrete requests of a ring of eight, the last entered outside it |
| VirtioExamples.SecondSlot | PeripheralEmulator.cpp:293-300 | a queue of eight with available index 1 and a ring of 0 and 3, both heads of proper chains: chain 3 is served and entered |
| VirtioExamples.SampleWellFormed | PeripheralEmulator.cpp:293-346 | concrete chains of three descriptors that are properly set up, for a read and for a write |
| VirtioExamples.WriteThenRead | PeripheralEmulator.cpp:357-370 | a concrete write of a sector that is read back |

## Left out

- Cpu.RiscvCpu.Execute: atomic instructions are decoded but not executed; the model treats reaching one as the end of the emulator.
- RunInvariant.RunKeepsViews: a run of the model stops at an atomic instruction and leaves out the peripherals, which touch memory and interrupt flags but no control register.
- Cpu.RiscvCpu.LoadInstruction: leaves out CheckDeviceRead at the end, which only concerns the UART.
- Cpu.RiscvCpu.RunCpu: takes a bound on the number of iterations, because the loop of the source need not end; all statements about runs hold for every bound.
- Cpu.RiscvCpu.Step: does not run the peripherals after the instruction; the disk is a machine of its own here, and host and UART emulation are terminal and test-harness plumbing.
- Cpu.RiscvCpu.SystemInstruction: ECALL always traps; the emulation of system calls forwards to the host and is not part of this model.
- Cpu.RiscvCpu.constructor: the value of MISA is a parameter, because the source shifts an int by 62 places to compute it.
- DataAccess.LoadBare: is about untranslated loads; LoadTranslated, RightExactly and LoadFaults are about loads through tables.
- WForms.ShiftsNarrow: shift amounts of 32 and more, which RV32 does not have, are undefined in C++ for SRAIW; the model shifts mathematically there.
- Peripheral.PeripheralEmulator.CheckDeviceWrite: does not record stores to the host interface and the UART, whose emulation is left out.
- TranslatedStore.StoreTranslated: asks that the first part of a split store does not land on the entries the second part's walk reads; StoreCompletes is about all others.
- SortProgram.ProgramSorts: the array ends at or below 2^31, where an address is the same number in the registers of both machines.
- Page permission checks, PMP, ASID, Sv48, LR/SC and floating point are not implemented in the source.
- The floating point encoders of tests/assembler.cc: they encode instructions the decoder does not know or takes for others.
- LoadAssemblerSum and the other guest programs: a loop of ten turns and straight-line code that raise no new proof obligation.
- Comparison of two memories and the iterators of the memory wrapper, the disassembler, the dump functions, ELF loading and the command line.
