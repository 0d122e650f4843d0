/**
  Decoding of 32-bit and compressed instructions (GetCode32 and GetCode16 of RISCV_cpu.cc), the
  assembler that inverts it, and the proof that every accepted compressed word abbreviates a 32-bit one.
 */
module Decoder {
  import opened Encoding

  datatype Op =
    | ERROR
    | ADD | SUB | AND | OR | XOR | SLL | SRL | SRA | SLT | SLTU
    | ADDW | SUBW | SLLW | SRLW | SRAW
    | MUL | MULH | MULHSU | MULHU | DIV | DIVU | REM | REMU
    | MULW | DIVW | DIVUW | REMW | REMUW
    | ADDI | ANDI | ORI | XORI | SLTI | SLTIU | ADDIW
    | SLLI | SRLI | SRAI | SLLIW | SRLIW | SRAIW
    | LB | LBU | LH | LHU | LW | LWU | LD
    | SB | SH | SW | SD
    | BEQ | BNE | BLT | BGE | BLTU | BGEU
    | JAL | JALR | LUI | AUIPC
    | SYSTEM | CSRRW | CSRRS | CSRRC | CSRRWI | CSRRSI | CSRRCI
    | FENCE | FENCEI
    | AMO(wide: bool, funct5: bv5)

  /** The groups of cases in the switch of RunCpu. */
  datatype Kind =
    | Operation | Immediate | ShiftImmediate | Comparison | ImmediateComparison | Multiplication
    | Branch | Jump | JumpRegister | Loading | Storing | LoadUpper | AddUpper
    | System | CsrAccess | Fencing | Atomic | Illegal

  function KindOf(op: Op): Kind
  {
    match op
    case ADD | ADDW | SUB | SUBW | AND | OR | XOR | SLL | SLLW | SRL | SRLW | SRA | SRAW => Operation
    case ADDI | ADDIW | ANDI | ORI | XORI => Immediate
    case SLLI | SLLIW | SRLI | SRLIW | SRAI | SRAIW => ShiftImmediate
    case SLT | SLTU => Comparison
    case SLTI | SLTIU => ImmediateComparison
    case BEQ | BNE | BLT | BGE | BLTU | BGEU => Branch
    case JAL => Jump
    case JALR => JumpRegister
    case LB | LBU | LH | LHU | LW | LWU | LD => Loading
    case SB | SH | SW | SD => Storing
    case LUI => LoadUpper
    case AUIPC => AddUpper
    case SYSTEM => System
    case CSRRW | CSRRS | CSRRC | CSRRWI | CSRRSI | CSRRCI => CsrAccess
    case FENCE | FENCEI => Fencing
    case MUL | MULH | MULHSU | MULHU | MULW | DIV | DIVU | DIVUW | DIVW | REM | REMU | REMUW | REMW => Multiplication
    case AMO(_, _) => Atomic
    case ERROR => Illegal
  }

  const FUNC_NORM: bv7 := 0x00
  const FUNC_ALT: bv7 := 0x20
  const FUNC_MULT: bv7 := 0x01

  /** The operation selected by opcode, funct3 and funct7: the nested switch of GetCode32. */
  function CodeOf(opcode: bv7, funct3: bv3, funct7: bv7): Op
  {
    if opcode == OPCODE_ARITHLOG then
      if funct7 == FUNC_NORM || funct7 == FUNC_ALT then
        if funct3 == 0 then if funct7 == FUNC_NORM then ADD else SUB
        else if funct3 == 7 then AND
        else if funct3 == 6 then OR
        else if funct3 == 4 then XOR
        else if funct3 == 5 then if funct7 == FUNC_NORM then SRL else SRA
        else if funct3 == 1 then SLL
        else if funct3 == 2 then SLT
        else SLTU
      else if funct7 == FUNC_MULT then
        if funct3 == 0 then MUL else if funct3 == 1 then MULH else if funct3 == 2 then MULHSU
        else if funct3 == 3 then MULHU else if funct3 == 4 then DIV else if funct3 == 5 then DIVU
        else if funct3 == 6 then REM else REMU
      else ERROR
    else if opcode == OPCODE_ARITHLOG_64 then
      if funct7 == FUNC_NORM || funct7 == FUNC_ALT then
        if funct3 == 0 then if funct7 == FUNC_NORM then ADDW else SUBW
        else if funct3 == 1 then SLLW
        else if funct3 == 5 then if funct7 == FUNC_NORM then SRLW else SRAW
        else ERROR
      else if funct7 == FUNC_MULT then
        if funct3 == 0 then MULW else if funct3 == 5 then DIVUW else if funct3 == 4 then DIVW
        else if funct3 == 7 then REMUW else if funct3 == 6 then REMW else ERROR
      else ERROR
    else if opcode == OPCODE_ARITHLOG_I then
      if funct3 == 0 then ADDI else if funct3 == 7 then ANDI else if funct3 == 6 then ORI
      else if funct3 == 4 then XORI else if funct3 == 1 then SLLI
      else if funct3 == 5 then
        if funct7 >> 1 == 0 then SRLI else if funct7 >> 1 == 0x10 then SRAI else ERROR
      else if funct3 == 2 then SLTI else SLTIU
    else if opcode == OPCODE_ARITHLOG_I64 then
      if funct3 == 0 then ADDIW else if funct3 == 1 then SLLIW
      else if funct3 == 5 then
        if funct7 >> 1 == 0 then SRLIW else if funct7 >> 1 == 0x10 then SRAIW else ERROR
      else ERROR
    else if opcode == OPCODE_B then
      if funct3 == 0 then BEQ else if funct3 == 4 then BLT else if funct3 == 6 then BLTU
      else if funct3 == 5 then BGE else if funct3 == 7 then BGEU else if funct3 == 1 then BNE else ERROR
    else if opcode == OPCODE_J then JAL
    else if opcode == OPCODE_JALR then if funct3 == 0 then JALR else ERROR
    else if opcode == OPCODE_LD then
      if funct3 == 0 then LB else if funct3 == 4 then LBU else if funct3 == 1 then LH
      else if funct3 == 5 then LHU else if funct3 == 2 then LW else if funct3 == 6 then LWU
      else if funct3 == 3 then LD else ERROR
    else if opcode == OPCODE_S then
      if funct3 == 0 then SB else if funct3 == 1 then SH else if funct3 == 2 then SW
      else if funct3 == 3 then SD else ERROR
    else if opcode == OPCODE_LUI then LUI
    else if opcode == OPCODE_AUIPC then AUIPC
    else if opcode == OPCODE_SYSTEM then
      if funct3 == 0 then SYSTEM else if funct3 == 3 then CSRRC else if funct3 == 7 then CSRRCI
      else if funct3 == 2 then CSRRS else if funct3 == 6 then CSRRSI else if funct3 == 1 then CSRRW
      else if funct3 == 5 then CSRRWI else ERROR
    else if opcode == OPCODE_FENCE then if funct3 == 1 then FENCEI else if funct3 == 0 then FENCE else ERROR
    else if opcode == OPCODE_AMO then
      var funct5 := (funct7 >> 2) as bv5;
      if funct5 == 0x00 || funct5 == 0x0C || funct5 == 0x14 || funct5 == 0x1C || funct5 == 0x10 || funct5 == 0x18
         || funct5 == 0x08 || funct5 == 0x04 || funct5 == 0x01
      then AMO(funct3 == 3, funct5) else ERROR
    else ERROR
  }

  function GetCode32(ir: bv32): Op { CodeOf(GetOpcode(ir), GetFunct3(ir), GetFunct7(ir)) }

  /** An operation with its operands, as both decoders hand them to the execution switch. */
  datatype Decoded = Decoded(op: Op, rd: bv5, rs1: bv5, rs2: bv5, imm: bv32)

  function Decode32(ir: bv32): Decoded
  {
    Decoded(GetCode32(ir), GetRd(ir), GetRs1(ir), GetRs2(ir), GetImm(ir))
  }

  // ----- compressed instructions -----

  // Register numbers of five bits, and of three bits that stand for x8 to x15.
  function Reg7(ir: bv32): bv5 { ((ir >> 7) & 0x1F) as bv5 }

  function Reg2(ir: bv32): bv5 { ((ir >> 2) & 0x1F) as bv5 }

  function Short7(ir: bv32): bv5 { (((ir >> 7) & 7) + 8) as bv5 }

  function Short2(ir: bv32): bv5 { (((ir >> 2) & 7) + 8) as bv5 }

  function Imm6(ir: bv32): bv32 { (((ir >> 12) & 1) << 5) | ((ir >> 2) & 0x1F) }

  function JumpBits(ir: bv32): bv32
  {
    (((ir >> 12) & 1) << 11) | (((ir >> 11) & 1) << 4) | (((ir >> 9) & 3) << 8) | (((ir >> 8) & 1) << 10)
    | (((ir >> 7) & 1) << 6) | (((ir >> 6) & 1) << 7) | (((ir >> 3) & 7) << 1) | (((ir >> 2) & 1) << 5)
  }

  function JumpOffset(ir: bv32): bv32 { SignExtend12(JumpBits(ir)) }

  function BranchBits(ir: bv32): bv32
  {
    (((ir >> 12) & 1) << 8) | (((ir >> 10) & 3) << 3) | (((ir >> 5) & 3) << 6) | (((ir >> 3) & 3) << 1) | (((ir >> 2) & 1) << 5)
  }

  function BranchOffset(ir: bv32): bv32 { SignExtend9(BranchBits(ir)) }

  function Addi4spnImm(ir: bv32): bv32 { (((ir >> 11) & 3) << 4) | (((ir >> 7) & 0xF) << 6) | (((ir >> 6) & 1) << 2) | (((ir >> 5) & 1) << 3) }

  function LuiImm(ir: bv32): bv32 { SignExtend18((((ir >> 12) & 1) << 17) | (((ir >> 2) & 0x1F) << 12)) }

  function Addi16spImm(ir: bv32): bv32 { SignExtend10((((ir >> 12) & 1) << 9) | (((ir >> 6) & 1) << 4) | (((ir >> 5) & 1) << 6) | (((ir >> 3) & 3) << 7) | (((ir >> 2) & 1) << 5)) }

  function LwspImm(ir: bv32): bv32 { (((ir >> 12) & 1) << 5) | (((ir >> 4) & 7) << 2) | (((ir >> 2) & 3) << 6) }

  function LdspImm(ir: bv32): bv32 { (((ir >> 12) & 1) << 5) | (((ir >> 5) & 3) << 3) | (((ir >> 2) & 7) << 6) }

  function SwspImm(ir: bv32): bv32 { (((ir >> 9) & 0xF) << 2) | (((ir >> 7) & 3) << 6) }

  function SdspImm(ir: bv32): bv32 { (((ir >> 10) & 7) << 3) | (((ir >> 7) & 7) << 6) }

  function SignedImm6(ir: bv32): bv32 { SignExtend6(Imm6(ir)) }

  function WordOffset(ir: bv32): bv32 { (((ir >> 10) & 7) << 3) | (((ir >> 6) & 1) << 2) | (((ir >> 5) & 1) << 6) }

  function DoubleOffset(ir: bv32): bv32 { (((ir >> 10) & 7) << 3) | (((ir >> 5) & 3) << 6) }

  const BAD := Decoded(ERROR, 0, 0, 0, 0)

  /** Quadrant 0 (C.ADDI4SPN, C.LW, C.LD, C.SW, C.SD). */
  function Quadrant0(ir: bv32): Decoded
  {
    var f := ((ir >> 13) & 7);
    if f == 0 then
      if ((ir >> 5) & 0xFF) == 0 then BAD
      else Decoded(ADDI, Short2(ir), 2, 0,
                   Addi4spnImm(ir))
    else if f == 2 then Decoded(LW, Short2(ir), Short7(ir), 0, WordOffset(ir))
    else if f == 3 then Decoded(LD, Short2(ir), Short7(ir), 0, DoubleOffset(ir))
    else if f == 6 then Decoded(SW, 0, Short7(ir), Short2(ir), WordOffset(ir))
    else if f == 7 then Decoded(SD, 0, Short7(ir), Short2(ir), DoubleOffset(ir))
    else BAD
  }

  /** The register and immediate operations that share one code of quadrant 1. */
  function Arithmetic(ir: bv32): Decoded
  {
    var rd, rs2, kind, sub := Short7(ir), Short2(ir), ((ir >> 10) & 7), ((ir >> 5) & 3);
    if kind == 3 && sub == 3 then Decoded(AND, rd, rd, rs2, 0)
    else if kind == 3 && sub == 1 then Decoded(XOR, rd, rd, rs2, 0)
    else if kind == 3 && sub == 0 then Decoded(SUB, rd, rd, rs2, 0)
    else if kind == 3 && sub == 2 then Decoded(OR, rd, rd, rs2, 0)
    else if kind == 7 && sub == 1 then Decoded(ADDW, rd, rd, rs2, 0)
    else if kind == 7 && sub == 0 then Decoded(SUBW, rd, rd, rs2, 0)
    else if ((ir >> 11) & 1) == 0 then Decoded(if ((ir >> 10) & 1) == 1 then SRAI else SRLI, rd, rd, 0, Imm6(ir))
    else if ((ir >> 10) & 1) == 0 then Decoded(ANDI, rd, rd, 0, SignedImm6(ir))
    else BAD
  }

  function Quadrant1(ir: bv32, mxl: int): Decoded
  {
    var f := ((ir >> 13) & 7);
    if f == 1 && mxl == 1 then Decoded(JAL, 1, 0, 0, JumpOffset(ir))
    else if f == 0 || f == 1 then
      Decoded(if f == 0 then ADDI else ADDIW, Reg7(ir), Reg7(ir), 0, SignedImm6(ir))
    else if f == 2 then Decoded(ADDI, Reg7(ir), 0, 0, SignedImm6(ir))
    else if f == 3 then
      if Reg7(ir) != 2 then
        var imm := LuiImm(ir);
        Decoded(if imm == 0 then ERROR else LUI, Reg7(ir), 0, 0, imm)
      else
        var imm := Addi16spImm(ir);
        Decoded(if imm == 0 then ERROR else ADDI, Reg7(ir), 2, 0, imm)
    else if f == 4 then Arithmetic(ir)
    else if f == 5 then Decoded(JAL, 0, 0, 0, JumpOffset(ir))
    else Decoded(if f == 6 then BEQ else BNE, 0, Short7(ir), 0, BranchOffset(ir))
  }

  function Quadrant2(ir: bv32): Decoded
  {
    var f := ((ir >> 13) & 7);
    if f == 0 then Decoded(SLLI, Reg7(ir), Reg7(ir), 0, Imm6(ir))
    else if f == 2 then
      Decoded(LW, Reg7(ir), 2, 0, LwspImm(ir))
    else if f == 3 then
      Decoded(LD, Reg7(ir), 2, 0, LdspImm(ir))
    else if f == 4 then
      if ((ir >> 12) & 1) == 1 then
        if Reg2(ir) == 0 && Reg7(ir) == 0 then Decoded(SYSTEM, 0, 0, 0, 1)
        else if Reg2(ir) == 0 then Decoded(JALR, 1, Reg7(ir), 0, 0)
        else if Reg7(ir) == 0 then BAD
        else Decoded(ADD, Reg7(ir), Reg7(ir), Reg2(ir), 0)
      else if Reg2(ir) == 0 then Decoded(JALR, 0, Reg7(ir), 0, 0)
      else Decoded(ADD, Reg7(ir), 0, Reg2(ir), 0)
    else if f == 6 then Decoded(SW, 0, 2, Reg2(ir), SwspImm(ir))
    else if f == 7 then Decoded(SD, 0, 2, Reg2(ir), SdspImm(ir))
    else BAD
  }

  function GetCode16(ir: bv32, mxl: int): Decoded
  {
    var quadrant := ir & 3;
    if quadrant == 0 then Quadrant0(ir) else if quadrant == 1 then Quadrant1(ir, mxl)
    else if quadrant == 2 then Quadrant2(ir) else BAD
  }

  // ----- which operands an operation uses -----

  datatype Format = R | I | Shift | S | B | U | J

  function FormatOf(op: Op): Format
  {
    match op
    case ADD | SUB | AND | OR | XOR | SLL | SRL | SRA | SLT | SLTU => R
    case ADDW | SUBW | SLLW | SRLW | SRAW => R
    case MUL | MULH | MULHSU | MULHU | DIV | DIVU | REM | REMU | MULW | DIVW | DIVUW | REMW | REMUW => R
    case AMO(_, _) => R
    case SLLI | SRLI | SRAI | SLLIW | SRLIW | SRAIW => Shift
    case SB | SH | SW | SD => S
    case BEQ | BNE | BLT | BGE | BLTU | BGEU => B
    case LUI | AUIPC => U
    case JAL => J
    case _ => I
  }

  /** The operands that are not used are set to zero. */
  function Used(d: Decoded): Decoded
  {
    match FormatOf(d.op)
    case R => d.(imm := 0)
    case I | Shift => d.(rs2 := 0)
    case S | B => d.(rd := 0)
    case U | J => d.(rs1 := 0, rs2 := 0)
  }

  lemma UsedEqual(d: Decoded, e: Decoded)
    requires d.op == e.op
    requires match FormatOf(d.op)
      case R => d.rd == e.rd && d.rs1 == e.rs1 && d.rs2 == e.rs2
      case I | Shift => d.rd == e.rd && d.rs1 == e.rs1 && d.imm == e.imm
      case S | B => d.rs1 == e.rs1 && d.rs2 == e.rs2 && d.imm == e.imm
      case U | J => d.rd == e.rd && d.imm == e.imm
    ensures Used(d) == Used(e)
  {
    hide FormatOf;
  }

  // Immediates that survive being cut to the width of their field.
  predicate Fits12(imm: bv32) { Extend12(Cut12(imm)) == imm }

  predicate Fits13(imm: bv32) { Extend13(Cut13(imm)) == imm }

  predicate Fits20(imm: bv32) { Extend20(Cut20(imm)) == imm }

  predicate Fits21(imm: bv32) { Extend21(Cut21(imm)) == imm }

  /** The immediates a 32-bit instruction of the format can hold. */
  predicate Encodable(d: Decoded)
  {
    match FormatOf(d.op)
    case R => true
    case I | S => Fits12(d.imm)
    case Shift => d.imm & 0x3F == d.imm
    case B => Fits13(d.imm)
    case U => Fits20(d.imm)
    case J => Fits21(d.imm)
  }

  // ----- the assembler -----

  function OpcodeOf(op: Op): bv7
  {
    match op
    case ADD | SUB | AND | OR | XOR | SLL | SRL | SRA | SLT | SLTU => OPCODE_ARITHLOG
    case MUL | MULH | MULHSU | MULHU | DIV | DIVU | REM | REMU => OPCODE_ARITHLOG
    case ADDW | SUBW | SLLW | SRLW | SRAW | MULW | DIVW | DIVUW | REMW | REMUW => OPCODE_ARITHLOG_64
    case ADDI | ANDI | ORI | XORI | SLTI | SLTIU | SLLI | SRLI | SRAI => OPCODE_ARITHLOG_I
    case ADDIW | SLLIW | SRLIW | SRAIW => OPCODE_ARITHLOG_I64
    case LB | LBU | LH | LHU | LW | LWU | LD => OPCODE_LD
    case SB | SH | SW | SD => OPCODE_S
    case BEQ | BNE | BLT | BGE | BLTU | BGEU => OPCODE_B
    case JAL => OPCODE_J
    case JALR => OPCODE_JALR
    case LUI => OPCODE_LUI
    case AUIPC => OPCODE_AUIPC
    case SYSTEM | CSRRW | CSRRS | CSRRC | CSRRWI | CSRRSI | CSRRCI => OPCODE_SYSTEM
    case FENCE | FENCEI => OPCODE_FENCE
    case AMO(_, _) => OPCODE_AMO
    case ERROR => 0
  }

  function Funct3Of(op: Op): bv3
  {
    match op
    case ADD | SUB | ADDW | SUBW | MUL | MULW | ADDI | ADDIW | LB | SB | BEQ | JALR | SYSTEM | FENCE => 0
    case SLL | SLLW | MULH | SLLI | SLLIW | LH | SH | BNE | CSRRW | FENCEI => 1
    case SLT | MULHSU | SLTI | LW | SW | CSRRS => 2
    case SLTU | MULHU | SLTIU | LD | SD | CSRRC => 3
    case XOR | DIV | DIVW | XORI | LBU | BLT => 4
    case SRL | SRA | SRLW | SRAW | DIVU | DIVUW | SRLI | SRAI | SRLIW | SRAIW | LHU | BGE | CSRRWI => 5
    case OR | REM | REMW | ORI | LWU | BLTU | CSRRSI => 6
    case AND | REMU | REMUW | ANDI | BGEU | CSRRCI => 7
    case AMO(wide, _) => if wide then 3 else 2
    case LUI | AUIPC | JAL | ERROR => 0
  }

  function Funct7Of(op: Op): bv7
  {
    match op
    case SUB | SRA | SUBW | SRAW | SRAI | SRAIW => FUNC_ALT
    case MUL | MULH | MULHSU | MULHU | DIV | DIVU | REM | REMU | MULW | DIVW | DIVUW | REMW | REMUW => FUNC_MULT
    case AMO(_, funct5) => (funct5 as bv7) << 2
    case _ => FUNC_NORM
  }

  /** The 32-bit word for an operation and its operands, by the encoders of the format classes. */
  function Assemble(d: Decoded): bv32
  {
    var opcode, funct3, funct7 := OpcodeOf(d.op), Funct3Of(d.op), Funct7Of(d.op);
    match FormatOf(d.op)
    case R => RWord(funct7, d.rs2, d.rs1, funct3, d.rd, opcode)
    case I => IWord(Cut12(d.imm), d.rs1, funct3, d.rd, opcode)
    case Shift => IWord(ShiftImm(d.imm, funct7), d.rs1, funct3, d.rd, opcode)
    case S => SWord(Cut12(d.imm), d.rs2, d.rs1, funct3, opcode)
    case B => BWord(Cut13(d.imm), d.rs2, d.rs1, funct3, opcode)
    case U => UWord(Cut20(d.imm), d.rd, opcode)
    case J => JWord(Cut21(d.imm), d.rd, opcode)
  }

  predicate Assemblable(op: Op)
  {
    op != ERROR && (op.AMO? ==> op.funct5 in {0x00, 0x0C, 0x14, 0x1C, 0x10, 0x18, 0x08, 0x04, 0x01})
  }

  /** The opcode table is read back by the switch; the immediate may supply the bits funct7 leaves open. */
  lemma CodeOfTable(op: Op)
    requires Assemblable(op)
    ensures CodeOf(OpcodeOf(op), Funct3Of(op), Funct7Of(op)) == op
  {
    hide CodeOf, OpcodeOf, Funct3Of, Funct7Of, Assemblable;
    if FormatOf(op).R? { CodeOfRegisters(op); } else { CodeOfOthers(op); }
  }

  lemma CodeOfRegisters(op: Op)
    requires Assemblable(op) && FormatOf(op).R?
    ensures CodeOf(OpcodeOf(op), Funct3Of(op), Funct7Of(op)) == op
  {}

  lemma CodeOfOthers(op: Op)
    requires Assemblable(op) && !FormatOf(op).R?
    ensures CodeOf(OpcodeOf(op), Funct3Of(op), Funct7Of(op)) == op
  {}

  lemma CodeOfImmediate(op: Op, funct7: bv7)
    requires Assemblable(op) && FormatOf(op) in {I, S, B}
    ensures CodeOf(OpcodeOf(op), Funct3Of(op), funct7) == op
  {}

  lemma CodeOfUpper(op: Op, funct3: bv3, funct7: bv7)
    requires FormatOf(op) in {U, J}
    ensures CodeOf(OpcodeOf(op), funct3, funct7) == op
  {}

  lemma CodeOfShift(op: Op, funct7: bv7)
    requires FormatOf(op).Shift? && ShiftKind(funct7) == ShiftKind(Funct7Of(op))
    ensures CodeOf(OpcodeOf(op), Funct3Of(op), funct7) == op
  {}

  /** The table's opcode selects the immediate of the operation's format. */
  lemma ImmediateOf(op: Op, ir: bv32)
    requires Assemblable(op) && GetOpcode(ir) == OpcodeOf(op)
    requires FormatOf(op) !in {U, J} ==> GetFunct3(ir) == Funct3Of(op)
    ensures match FormatOf(op)
      case R => true
      case I => GetImm(ir) == GetImm12(ir)
      case Shift => GetImm(ir) == ShiftAmount(GetImm12(ir))
      case S => GetImm(ir) == GetStypeImm12(ir)
      case B => GetImm(ir) == GetImm13(ir)
      case U => GetImm(ir) == GetImm20(ir) << 12
      case J => GetImm(ir) == GetImm21(ir)
  {
    hide GetOpcode, GetFunct3, GetImm12, GetStypeImm12, GetImm13, GetImm20, GetImm21;
  }

  lemma AssembleR(d: Decoded)
    requires Assemblable(d.op) && FormatOf(d.op).R?
    ensures var e := Decode32(Assemble(d)); e.op == d.op && e.rd == d.rd && e.rs1 == d.rs1 && e.rs2 == d.rs2
  {
    hide CodeOf, GetOpcode, GetRd, GetRs1, GetRs2, GetFunct3, GetFunct7;
    hide GetImm, GetImm12, GetStypeImm12, GetImm13, GetImm20, GetImm21, IsShift;
    hide Used, OpcodeOf, Funct3Of, Funct7Of, FormatOf, Assemblable;
    hide RWord;
    var w := Assemble(d);
    RFields(Funct7Of(d.op), d.rs2, d.rs1, Funct3Of(d.op), d.rd, OpcodeOf(d.op));
    CodeOfTable(d.op);
  }

  lemma AssembleI(d: Decoded)
    requires Assemblable(d.op) && FormatOf(d.op).I? && Fits12(d.imm)
    ensures var e := Decode32(Assemble(d)); e.op == d.op && e.rd == d.rd && e.rs1 == d.rs1 && e.imm == d.imm
  {
    hide CodeOf, GetOpcode, GetRd, GetRs1, GetRs2, GetFunct3, GetFunct7;
    hide GetImm, GetImm12, GetStypeImm12, GetImm13, GetImm20, GetImm21, IsShift;
    hide Used, OpcodeOf, Funct3Of, Funct7Of, FormatOf, Assemblable;
    hide IWord, Cut12, Extend12;
    var w := Assemble(d);
    IFields(Cut12(d.imm), d.rs1, Funct3Of(d.op), d.rd, OpcodeOf(d.op));
    CodeOfImmediate(d.op, GetFunct7(w));
    ImmediateOf(d.op, w);
  }

  lemma AssembleS(d: Decoded)
    requires Assemblable(d.op) && FormatOf(d.op).S? && Fits12(d.imm)
    ensures var e := Decode32(Assemble(d)); e.op == d.op && e.rs1 == d.rs1 && e.rs2 == d.rs2 && e.imm == d.imm
  {
    hide CodeOf, GetOpcode, GetRd, GetRs1, GetRs2, GetFunct3, GetFunct7;
    hide GetImm, GetImm12, GetStypeImm12, GetImm13, GetImm20, GetImm21, IsShift;
    hide Used, OpcodeOf, Funct3Of, Funct7Of, FormatOf, Assemblable;
    hide SWord, Cut12, Extend12;
    var w := Assemble(d);
    SFields(Cut12(d.imm), d.rs2, d.rs1, Funct3Of(d.op), OpcodeOf(d.op));
    CodeOfImmediate(d.op, GetFunct7(w));
    ImmediateOf(d.op, w);
  }

  lemma AssembleB(d: Decoded)
    requires Assemblable(d.op) && FormatOf(d.op).B? && Fits13(d.imm)
    ensures var e := Decode32(Assemble(d)); e.op == d.op && e.rs1 == d.rs1 && e.rs2 == d.rs2 && e.imm == d.imm
  {
    hide CodeOf, GetOpcode, GetRd, GetRs1, GetRs2, GetFunct3, GetFunct7;
    hide GetImm, GetImm12, GetStypeImm12, GetImm13, GetImm20, GetImm21, IsShift;
    hide Used, OpcodeOf, Funct3Of, Funct7Of, FormatOf, Assemblable;
    hide BWord, Cut13, Extend13;
    var w := Assemble(d);
    BFields(Cut13(d.imm), d.rs2, d.rs1, Funct3Of(d.op), OpcodeOf(d.op));
    CodeOfImmediate(d.op, GetFunct7(w));
    ImmediateOf(d.op, w);
  }

  lemma AssembleU(d: Decoded)
    requires Assemblable(d.op) && FormatOf(d.op).U? && Fits20(d.imm)
    ensures var e := Decode32(Assemble(d)); e.op == d.op && e.rd == d.rd && e.imm == d.imm
  {
    hide CodeOf, GetOpcode, GetRd, GetRs1, GetRs2, GetFunct3, GetFunct7;
    hide GetImm, GetImm12, GetStypeImm12, GetImm13, GetImm20, GetImm21, IsShift;
    hide Used, OpcodeOf, Funct3Of, Funct7Of, FormatOf, Assemblable;
    hide UWord, Cut20, Extend20;
    var w := Assemble(d);
    UFields(Cut20(d.imm), d.rd, OpcodeOf(d.op));
    CodeOfUpper(d.op, GetFunct3(w), GetFunct7(w));
    ImmediateOf(d.op, w);
  }

  lemma AssembleJ(d: Decoded)
    requires Assemblable(d.op) && FormatOf(d.op).J? && Fits21(d.imm)
    ensures var e := Decode32(Assemble(d)); e.op == d.op && e.rd == d.rd && e.imm == d.imm
  {
    hide CodeOf, GetOpcode, GetRd, GetRs1, GetRs2, GetFunct3, GetFunct7;
    hide GetImm, GetImm12, GetStypeImm12, GetImm13, GetImm20, GetImm21, IsShift;
    hide Used, OpcodeOf, Funct3Of, Funct7Of, FormatOf, Assemblable;
    hide JWord, Cut21, Extend21;
    var w := Assemble(d);
    JFields(Cut21(d.imm), d.rd, OpcodeOf(d.op));
    CodeOfUpper(d.op, GetFunct3(w), GetFunct7(w));
    ImmediateOf(d.op, w);
  }

  /** Shift instructions keep bits 31..26 for the kind of shift and bits 25..20 for the amount. */
  function ShiftImm(imm: bv32, funct7: bv7): bv12 { ((imm & 0x3F) | ((funct7 as bv32) << 5)) as bv12 }

  function ShiftKind(funct7: bv7): bv7 { funct7 >> 1 }

  function ShiftAmount(imm: bv32): bv32 { imm & 0x3F }

  function UpperField(imm12: bv12): bv7 { ((imm12 >> 5) & 0x7F) as bv7 }

  lemma IUpperField(imm12: bv12, rs1: bv5, funct3: bv3, rd: bv5, opcode: bv7)
    ensures GetFunct7(IWord(imm12, rs1, funct3, rd, opcode)) == UpperField(imm12)
  {}

  lemma ShiftFields(imm: bv32, funct7: bv7)
    requires imm & 0x3F == imm && (funct7 == FUNC_NORM || funct7 == FUNC_ALT)
    ensures var imm12 := ShiftImm(imm, funct7);
      && ShiftKind(UpperField(imm12)) == ShiftKind(funct7)
      && ShiftAmount(Extend12(imm12)) == imm
  {
    if funct7 == FUNC_NORM {} else {}
  }

  lemma ShiftKinds(op: Op)
    requires FormatOf(op).Shift?
    ensures Funct7Of(op) == FUNC_NORM || Funct7Of(op) == FUNC_ALT
  {}

  lemma AssembleShift(d: Decoded)
    requires Assemblable(d.op) && FormatOf(d.op).Shift? && d.imm & 0x3F == d.imm
    ensures var e := Decode32(Assemble(d)); e.op == d.op && e.rd == d.rd && e.rs1 == d.rs1 && e.imm == d.imm
  {
    hide CodeOf, GetOpcode, GetRd, GetRs1, GetRs2, GetFunct3, GetFunct7;
    hide GetImm, GetImm12, GetStypeImm12, GetImm13, GetImm20, GetImm21, IsShift;
    hide Used, OpcodeOf, Funct3Of, Funct7Of, FormatOf, Assemblable;
    hide IWord, ShiftImm, ShiftAmount, ShiftKind, UpperField, Extend12;
    var w := Assemble(d);
    IFields(ShiftImm(d.imm, Funct7Of(d.op)), d.rs1, Funct3Of(d.op), d.rd, OpcodeOf(d.op));
    IUpperField(ShiftImm(d.imm, Funct7Of(d.op)), d.rs1, Funct3Of(d.op), d.rd, OpcodeOf(d.op));
    ShiftKinds(d.op);
    ShiftFields(d.imm, Funct7Of(d.op));
    CodeOfShift(d.op, GetFunct7(w));
    ImmediateOf(d.op, w);
  }

  /** Decoding inverts assembling, for every operation and all operands its format can hold. */
  lemma AssembleThenDecode(d: Decoded)
    requires Assemblable(d.op) && Encodable(d)
    ensures Used(Decode32(Assemble(d))) == Used(d)
  {
    hide Fits12, Fits13, Fits20, Fits21, Decode32, Assemble, Used, FormatOf;
    match FormatOf(d.op) {
    case R => AssembleR(d);
    case I => AssembleI(d);
    case Shift => AssembleShift(d);
    case S => AssembleS(d);
    case B => AssembleB(d);
    case U => AssembleU(d);
    case J => AssembleJ(d);
    }
    UsedEqual(Decode32(Assemble(d)), d);
  }

  // ----- compressed words abbreviate 32-bit words -----

  lemma Addi4spnImmFits(ir: bv32)
    ensures Fits12(Addi4spnImm(ir))
  {}

  lemma LwspImmFits(ir: bv32)
    ensures Fits12(LwspImm(ir))
  {}

  lemma LdspImmFits(ir: bv32)
    ensures Fits12(LdspImm(ir))
  {}

  lemma SwspImmFits(ir: bv32)
    ensures Fits12(SwspImm(ir))
  {}

  lemma SdspImmFits(ir: bv32)
    ensures Fits12(SdspImm(ir))
  {}

  lemma WordOffsetFits(ir: bv32)
    ensures Fits12(WordOffset(ir))
  {}

  lemma DoubleOffsetFits(ir: bv32)
    ensures Fits12(DoubleOffset(ir))
  {}

  lemma Imm6Fits(ir: bv32)
    ensures Imm6(ir) & 0x3F == Imm6(ir)
  {}

  lemma SignedImm6Fits(ir: bv32)
    ensures Fits12(SignedImm6(ir))
  {
    if (ir >> 12) & 1 == 1 {} else {}
  }

  lemma Addi16spImmFits(ir: bv32)
    ensures Fits12(Addi16spImm(ir))
  {
    if (ir >> 12) & 1 == 1 {} else {}
  }

  lemma LuiImmFits(ir: bv32)
    ensures Fits20(LuiImm(ir))
  {
    if (ir >> 12) & 1 == 1 {} else {}
  }

  lemma JumpOffsetFits(ir: bv32)
    ensures Fits21(JumpOffset(ir))
  {
    if (ir >> 12) & 1 == 1 {} else {}
  }

  lemma BranchOffsetFits(ir: bv32)
    ensures Fits13(BranchOffset(ir))
  {
    if (ir >> 12) & 1 == 1 {} else {}
  }

  lemma Quadrant0Encodable(ir: bv32)
    ensures Quadrant0(ir).op != ERROR ==> Assemblable(Quadrant0(ir).op) && Encodable(Quadrant0(ir))
  {
    hide Addi4spnImm, WordOffset, DoubleOffset, Fits12, Short2, Short7;
    Addi4spnImmFits(ir); WordOffsetFits(ir); DoubleOffsetFits(ir);
  }

  lemma ArithmeticEncodable(ir: bv32)
    ensures Arithmetic(ir).op != ERROR ==> Assemblable(Arithmetic(ir).op) && Encodable(Arithmetic(ir))
  {
    hide Imm6, SignedImm6, Fits12, Short2, Short7;
    Imm6Fits(ir); SignedImm6Fits(ir);
  }

  lemma Quadrant1Encodable(ir: bv32, mxl: int)
    ensures var d := Quadrant1(ir, mxl); d.op != ERROR ==> Assemblable(d.op) && Encodable(d)
  {
    hide Arithmetic, SignedImm6, LuiImm, Addi16spImm, JumpOffset, BranchOffset, Fits12, Fits13, Fits20, Fits21, Short7, Reg7, FormatOf, Assemblable;
    Quadrant1Format(JAL); Quadrant1Format(ADDI); Quadrant1Format(ADDIW); Quadrant1Format(LUI); Quadrant1Format(BEQ); Quadrant1Format(BNE);
    ArithmeticEncodable(ir);
    SignedImm6Fits(ir); LuiImmFits(ir); Addi16spImmFits(ir); JumpOffsetFits(ir); BranchOffsetFits(ir);
  }

  lemma Quadrant1Format(op: Op)
    requires op.JAL? || op.ADDI? || op.ADDIW? || op.LUI? || op.BEQ? || op.BNE?
    ensures Assemblable(op) && FormatOf(op) == if op.JAL? then J else if op.LUI? then U else if op.BEQ? || op.BNE? then B else I
  {}

  lemma SmallFits()
    ensures Fits12(0) && Fits12(1)
  {}

  lemma Quadrant2Encodable(ir: bv32)
    ensures Quadrant2(ir).op != ERROR ==> Assemblable(Quadrant2(ir).op) && Encodable(Quadrant2(ir))
  {
    hide Imm6, LwspImm, LdspImm, SwspImm, SdspImm, Fits12, Reg2, Reg7;
    Imm6Fits(ir); LwspImmFits(ir); LdspImmFits(ir); SwspImmFits(ir); SdspImmFits(ir); SmallFits();
  }

  /** The 32-bit word a compressed word stands for. */
  function Expand(ir: bv32, mxl: int): bv32 { Assemble(GetCode16(ir, mxl)) }

  /** Every compressed word that is accepted has a 32-bit word with the same operation and used operands. */
  lemma CompressedIsAbbreviation(ir: bv32, mxl: int)
    requires GetCode16(ir, mxl).op != ERROR
    ensures Used(Decode32(Expand(ir, mxl))) == Used(GetCode16(ir, mxl))
  {
    hide Quadrant0, Quadrant1, Quadrant2, Encodable, Assemblable, Decode32, Used;
    Quadrant0Encodable(ir);
    Quadrant1Encodable(ir, mxl);
    Quadrant2Encodable(ir);
    AssembleThenDecode(GetCode16(ir, mxl));
  }
}
