/**
  The compressed encoders of tests/assembler.cc, and the proof that the decoder inverts them: every
  form, all registers, all immediates the form can hold. `imm` is the immediate as the encoders take it.
 */
module CompressedAssembler {
  import opened Encoding
  import opened Decoder

  // ----- the encoders -----

  function Reg(r: bv5): bv32 { r as bv32 }

  function AsmCAddType(cmd: bv32, rd: bv5, rs2: bv5): bv32 { cmd | (Reg(rd) << 7) | (Reg(rs2) << 2) }

  function AsmCAndType(cmd: bv32, rd: bv5, rs2: bv5): bv32 { cmd | ((Reg(rd) & 7) << 7) | ((Reg(rs2) & 7) << 2) }

  function AsmCAddiType(cmd: bv32, rd: bv5, imm: bv32): bv32
  {
    cmd | (Reg(rd) << 7) | (((imm >> 5) & 1) << 12) | ((imm & 0x1F) << 2)
  }

  function AsmCAndiType(cmd: bv32, rd: bv5, imm: bv32): bv32
  {
    cmd | ((Reg(rd) & 7) << 7) | (((imm >> 5) & 1) << 12) | ((imm & 0x1F) << 2)
  }

  function AsmCBType(cmd: bv32, rs1: bv5, offset: bv32): bv32
  {
    cmd | ((Reg(rs1) & 7) << 7) | (((offset >> 8) & 1) << 12) | (((offset >> 3) & 3) << 10)
        | (((offset >> 6) & 3) << 5) | (((offset >> 1) & 3) << 3) | (((offset >> 5) & 1) << 2)
  }

  function AsmCJType(cmd: bv32, offset: bv32): bv32
  {
    cmd | (((offset >> 11) & 1) << 12) | (((offset >> 4) & 1) << 11) | (((offset >> 8) & 3) << 9)
        | (((offset >> 10) & 1) << 8) | (((offset >> 6) & 1) << 7) | (((offset >> 7) & 1) << 6)
        | (((offset >> 1) & 7) << 3) | (((offset >> 5) & 1) << 2)
  }

  function AsmCLdType(cmd: bv32, low: bv5, high: bv5, uimm: bv32): bv32
  {
    cmd | ((Reg(low) & 7) << 2) | ((Reg(high) & 7) << 7) | (((uimm >> 3) & 7) << 10) | (((uimm >> 6) & 3) << 5)
  }

  function AsmCLwType(cmd: bv32, low: bv5, high: bv5, uimm: bv32): bv32
  {
    cmd | ((Reg(low) & 7) << 2) | ((Reg(high) & 7) << 7) | (((uimm >> 3) & 7) << 10)
        | (((uimm >> 2) & 1) << 6) | (((uimm >> 6) & 1) << 5)
  }

  function AsmCAddi4spn(rd: bv5, uimm: bv32): bv32
  {
    ((Reg(rd) & 7) << 2) | (((uimm >> 4) & 3) << 11) | (((uimm >> 6) & 0xF) << 7) | (((uimm >> 2) & 1) << 6) | (((uimm >> 3) & 1) << 5)
  }

  function AsmCAddi16sp(imm: bv32): bv32
  {
    0x6101 | (((imm >> 9) & 1) << 12) | (((imm >> 5) & 1) << 2) | (((imm >> 7) & 3) << 3) | (((imm >> 6) & 1) << 5) | (((imm >> 4) & 1) << 6)
  }

  /** AsmCLui: the immediate is encoded, the register is not. */
  function AsmCLui(rd: bv5, imm: bv32): bv32
  {
    0x6001 | (((imm >> 17) & 1) << 12) | (((imm >> 12) & 0x1F) << 2)
  }

  function AsmCLwsp(rd: bv5, uimm: bv32): bv32
  {
    0x4002 | (Reg(rd) << 7) | (((uimm >> 5) & 1) << 12) | (((uimm >> 2) & 7) << 4) | (((uimm >> 6) & 3) << 2)
  }

  function AsmCLdsp(rd: bv5, uimm: bv32): bv32
  {
    0x6002 | (Reg(rd) << 7) | (((uimm >> 5) & 1) << 12) | (((uimm >> 3) & 3) << 5) | (((uimm >> 6) & 7) << 2)
  }

  function AsmCSwsp(rs2: bv5, uimm: bv32): bv32 { 0xC002 | (Reg(rs2) << 2) | (((uimm >> 2) & 0xF) << 9) | (((uimm >> 6) & 3) << 7) }

  function AsmCSdsp(rs2: bv5, uimm: bv32): bv32 { 0xE002 | (Reg(rs2) << 2) | (((uimm >> 3) & 7) << 10) | (((uimm >> 6) & 7) << 7) }

  function AsmCSlli(rd: bv5, uimm: bv32): bv32 { 0x0002 | (Reg(rd) << 7) | (((uimm >> 5) & 1) << 12) | ((uimm & 0x1F) << 2) }

  // ----- the operands a form can hold -----

  /** The registers three bits can name: x8 to x15. */
  predicate Short(r: bv5) { 8 <= r < 16 }

  /** Numbers of six bits with a sign. */
  predicate Signed6(imm: bv32) { imm < 0x20 || imm >= 0xFFFF_FFE0 }

  /** Even numbers from -256 to 254 and from -2048 to 2046. */
  predicate BranchDistance(imm: bv32) { imm & 1 == 0 && (imm < 0x100 || imm >= 0xFFFF_FF00) }

  predicate JumpDistance(imm: bv32) { imm & 1 == 0 && (imm < 0x800 || imm >= 0xFFFF_F800) }

  predicate Six(imm: bv32) { imm < 0x40 }

  predicate Scaled(imm: bv32, low: bv32, bound: bv32) { imm & low == 0 && imm < bound }

  /** The immediates of C.LUI and C.ADDI16SP. */
  predicate LuiImmediate(imm: bv32) { imm != 0 && imm & 0xFFF == 0 && (imm < 0x2_0000 || imm >= 0xFFFE_0000) }

  predicate StackStep(imm: bv32) { imm != 0 && imm & 0xF == 0 && (imm < 0x200 || imm >= 0xFFFF_FE00) }

  // ----- what each compressed word means -----

  predicate Loads(d: Decoded, w: bv32)
  {
    d.rs2 == 0 &&
    match d.op
    case LW => (Short(d.rd) && Short(d.rs1) && Scaled(d.imm, 3, 0x80) && w == AsmCLwType(0x4000, d.rd, d.rs1, d.imm))
            || (d.rs1 == 2 && Scaled(d.imm, 3, 0x100) && w == AsmCLwsp(d.rd, d.imm))
    case LD => (Short(d.rd) && Short(d.rs1) && Scaled(d.imm, 7, 0x100) && w == AsmCLdType(0x6000, d.rd, d.rs1, d.imm))
            || (d.rs1 == 2 && Scaled(d.imm, 7, 0x200) && w == AsmCLdsp(d.rd, d.imm))
    case _ => false
  }

  predicate Stores(d: Decoded, w: bv32)
  {
    d.rd == 0 &&
    match d.op
    case SW => (Short(d.rs1) && Short(d.rs2) && Scaled(d.imm, 3, 0x80) && w == AsmCLwType(0xC000, d.rs2, d.rs1, d.imm))
            || (d.rs1 == 2 && Scaled(d.imm, 3, 0x100) && w == AsmCSwsp(d.rs2, d.imm))
    case SD => (Short(d.rs1) && Short(d.rs2) && Scaled(d.imm, 7, 0x100) && w == AsmCLdType(0xE000, d.rs2, d.rs1, d.imm))
            || (d.rs1 == 2 && Scaled(d.imm, 7, 0x200) && w == AsmCSdsp(d.rs2, d.imm))
    case _ => false
  }

  predicate Immediates(d: Decoded, w: bv32, mxl: int)
  {
    d.rs2 == 0 &&
    match d.op
    case ADDI => (d.rs1 == d.rd && Signed6(d.imm) && w == AsmCAddiType(0x0001, d.rd, d.imm))
              || (d.rs1 == 0 && Signed6(d.imm) && w == AsmCAddiType(0x4001, d.rd, d.imm))
              || (d.rs1 == 2 && Short(d.rd) && d.imm != 0 && Scaled(d.imm, 3, 0x400) && w == AsmCAddi4spn(d.rd, d.imm))
              || (d.rs1 == 2 && d.rd == 2 && StackStep(d.imm) && w == AsmCAddi16sp(d.imm))
    case ADDIW => mxl != 1 && d.rs1 == d.rd && Signed6(d.imm) && w == AsmCAddiType(0x2001, d.rd, d.imm)
    // AsmCLui leaves the register out; with the register it is
    case LUI => d.rs1 == 0 && d.rd != 2 && LuiImmediate(d.imm) && w == AsmCLui(d.rd, d.imm) | (Reg(d.rd) << 7)
    case ANDI => d.rs1 == d.rd && Short(d.rd) && Signed6(d.imm) && w == AsmCAndiType(0x8801, d.rd, d.imm)
    case SRLI => d.rs1 == d.rd && Short(d.rd) && Six(d.imm) && w == AsmCAndiType(0x8001, d.rd, d.imm)
    case SRAI => d.rs1 == d.rd && Short(d.rd) && Six(d.imm) && w == AsmCAndiType(0x8401, d.rd, d.imm)
    case SLLI => d.rs1 == d.rd && Six(d.imm) && w == AsmCSlli(d.rd, d.imm)
    case _ => false
  }

  function CodeOfAndType(op: Op): bv32
  {
    match op
    case AND => 0x8C61
    case OR => 0x8C41
    case XOR => 0x8C21
    case SUB => 0x8C01
    case ADDW => 0x9C21
    case SUBW => 0x9C01
    case _ => 0
  }

  predicate Registers(d: Decoded, w: bv32)
  {
    d.imm == 0 &&
    match d.op
    case AND | OR | XOR | SUB | ADDW | SUBW => d.rs1 == d.rd && Short(d.rd) && Short(d.rs2) && w == AsmCAndType(CodeOfAndType(d.op), d.rd, d.rs2)
    case ADD => d.rs2 != 0 && ((d.rs1 == 0 && w == AsmCAddType(0x8002, d.rd, d.rs2))
                            || (d.rs1 == d.rd && d.rd != 0 && w == AsmCAddType(0x9002, d.rd, d.rs2)))
    case JALR => d.rs2 == 0 && ((d.rd == 0 && w == AsmCAddType(0x8002, d.rs1, 0))
                             || (d.rd == 1 && d.rs1 != 0 && w == AsmCAddType(0x9002, d.rs1, 0)))
    case _ => false
  }

  predicate Jumps(d: Decoded, w: bv32, mxl: int)
  {
    match d.op
    case JAL => d.rs1 == 0 && d.rs2 == 0 && JumpDistance(d.imm)
             && ((d.rd == 0 && w == AsmCJType(0xA001, d.imm)) || (mxl == 1 && d.rd == 1 && w == AsmCJType(0x2001, d.imm)))
    case BEQ => d.rd == 0 && d.rs2 == 0 && Short(d.rs1) && BranchDistance(d.imm) && w == AsmCBType(0xC001, d.rs1, d.imm)
    case BNE => d.rd == 0 && d.rs2 == 0 && Short(d.rs1) && BranchDistance(d.imm) && w == AsmCBType(0xE001, d.rs1, d.imm)
    case SYSTEM => d == Decoded(SYSTEM, 0, 0, 0, 1) && w == 0x9002
    case _ => false
  }

  /** `w` is the compressed encoding of the instruction `d`. */
  predicate Encodes(d: Decoded, w: bv32, mxl: int)
  {
    Loads(d, w) || Stores(d, w) || Immediates(d, w, mxl) || Registers(d, w) || Jumps(d, w, mxl)
  }

  function Quadrant(w: bv32): bv32 { w & 3 }

  function Selector(w: bv32): bv32 { (w >> 13) & 7 }

  // ----- fields of the encoded words -----

  lemma LwTypeFields(cmd: bv32, low: bv5, high: bv5, imm: bv32)
    requires Short(low) && Short(high) && Scaled(imm, 3, 0x80) && cmd & 0x1FFC == 0
    ensures var w := AsmCLwType(cmd, low, high, imm);
      Quadrant(w) == Quadrant(cmd) && Selector(w) == Selector(cmd) && Short2(w) == low && Short7(w) == high && WordOffset(w) == imm
  {}

  lemma LdTypeFields(cmd: bv32, low: bv5, high: bv5, imm: bv32)
    requires Short(low) && Short(high) && Scaled(imm, 7, 0x100) && cmd & 0x1FFC == 0
    ensures var w := AsmCLdType(cmd, low, high, imm);
      Quadrant(w) == Quadrant(cmd) && Selector(w) == Selector(cmd) && Short2(w) == low && Short7(w) == high && DoubleOffset(w) == imm
  {}

  lemma Addi4spnFields(rd: bv5, imm: bv32)
    requires Short(rd) && imm != 0 && Scaled(imm, 3, 0x400)
    ensures var w := AsmCAddi4spn(rd, imm);
      Quadrant(w) == 0 && Selector(w) == 0 && (w >> 5) & 0xFF != 0 && Short2(w) == rd && Addi4spnImm(w) == imm
  {}

  lemma Addi16spFields(imm: bv32)
    requires StackStep(imm)
    ensures var w := AsmCAddi16sp(imm); Quadrant(w) == 1 && Selector(w) == 3 && Reg7(w) == 2 && Addi16spImm(w) == imm
  {}

  lemma LuiFields(rd: bv5, imm: bv32)
    requires LuiImmediate(imm)
    ensures var w := AsmCLui(rd, imm) | (Reg(rd) << 7); Quadrant(w) == 1 && Selector(w) == 3 && Reg7(w) == rd && LuiImm(w) == imm
  {}

  lemma LwspFields(rd: bv5, imm: bv32)
    requires Scaled(imm, 3, 0x100)
    ensures var w := AsmCLwsp(rd, imm); Quadrant(w) == 2 && Selector(w) == 2 && Reg7(w) == rd && LwspImm(w) == imm
  {}

  lemma LdspFields(rd: bv5, imm: bv32)
    requires Scaled(imm, 7, 0x200)
    ensures var w := AsmCLdsp(rd, imm); Quadrant(w) == 2 && Selector(w) == 3 && Reg7(w) == rd && LdspImm(w) == imm
  {}

  lemma SwspFields(rs2: bv5, imm: bv32)
    requires Scaled(imm, 3, 0x100)
    ensures var w := AsmCSwsp(rs2, imm); Quadrant(w) == 2 && Selector(w) == 6 && Reg2(w) == rs2 && SwspImm(w) == imm
  {}

  lemma SdspFields(rs2: bv5, imm: bv32)
    requires Scaled(imm, 7, 0x200)
    ensures var w := AsmCSdsp(rs2, imm); Quadrant(w) == 2 && Selector(w) == 7 && Reg2(w) == rs2 && SdspImm(w) == imm
  {}

  lemma SlliFields(rd: bv5, imm: bv32)
    requires Six(imm)
    ensures var w := AsmCSlli(rd, imm); Quadrant(w) == 2 && Selector(w) == 0 && Reg7(w) == rd && Imm6(w) == imm
  {}

  lemma AddiTypeFields(cmd: bv32, rd: bv5, imm: bv32)
    requires Signed6(imm) && cmd & 0x1FFC == 0
    ensures var w := AsmCAddiType(cmd, rd, imm);
      Quadrant(w) == Quadrant(cmd) && Selector(w) == Selector(cmd) && Reg7(w) == rd && SignedImm6(w) == imm
  {}

  lemma AndiTypeFields(cmd: bv32, rd: bv5, imm: bv32)
    requires Short(rd) && cmd & 0x13FC == 0
    ensures var w := AsmCAndiType(cmd, rd, imm);
      && Quadrant(w) == Quadrant(cmd) && Selector(w) == Selector(cmd) && Short7(w) == rd
      && (w >> 10) & 3 == (cmd >> 10) & 3 && (Six(imm) ==> Imm6(w) == imm) && (Signed6(imm) ==> SignedImm6(w) == imm)
  {}

  lemma AndTypeFields(cmd: bv32, rd: bv5, rs2: bv5)
    requires Short(rd) && Short(rs2) && cmd & 0x039C == 0
    ensures var w := AsmCAndType(cmd, rd, rs2);
      && Quadrant(w) == Quadrant(cmd) && Selector(w) == Selector(cmd) && Short7(w) == rd && Short2(w) == rs2
      && (w >> 10) & 7 == (cmd >> 10) & 7 && (w >> 5) & 3 == (cmd >> 5) & 3
  {}

  lemma AddTypeFields(cmd: bv32, rd: bv5, rs2: bv5)
    requires cmd & 0x0FFC == 0
    ensures var w := AsmCAddType(cmd, rd, rs2);
      && Quadrant(w) == Quadrant(cmd) && Selector(w) == Selector(cmd) && Reg7(w) == rd && Reg2(w) == rs2
      && (w >> 12) & 1 == (cmd >> 12) & 1
  {}

  lemma JTypeFields(cmd: bv32, imm: bv32)
    requires JumpDistance(imm) && cmd & 0x1FFC == 0
    ensures var w := AsmCJType(cmd, imm); Quadrant(w) == Quadrant(cmd) && Selector(w) == Selector(cmd) && JumpOffset(w) == imm
  {}

  lemma BTypeFields(cmd: bv32, rs1: bv5, imm: bv32)
    requires Short(rs1) && BranchDistance(imm) && cmd & 0x1FFC == 0
    ensures var w := AsmCBType(cmd, rs1, imm);
      Quadrant(w) == Quadrant(cmd) && Selector(w) == Selector(cmd) && Short7(w) == rs1 && BranchOffset(w) == imm
  {}

  // ----- the decoder inverts the encoders -----

  lemma LoadDecodes(d: Decoded, w: bv32, mxl: int)
    requires Loads(d, w)
    ensures GetCode16(w, mxl) == d
  {
    hide AsmCLwType, AsmCLdType, AsmCLwsp, AsmCLdsp, AsmCSwsp, AsmCSdsp, AsmCAddiType, AsmCAddi4spn, AsmCAddi16sp, AsmCLui, AsmCAndiType, AsmCAndType, AsmCAddType, AsmCSlli, AsmCJType, AsmCBType;
    hide WordOffset, DoubleOffset, LwspImm, LdspImm, SwspImm, SdspImm, Imm6, SignedImm6, Addi4spnImm, Addi16spImm, LuiImm, JumpOffset, BranchOffset, Short2, Short7, Reg2, Reg7;
    hide Scaled, Short, Quadrant1;
    if d.op == LW {
      if w == AsmCLwsp(d.rd, d.imm) && d.rs1 == 2 && Scaled(d.imm, 3, 0x100) { LwspFields(d.rd, d.imm); }
      else { LwTypeFields(0x4000, d.rd, d.rs1, d.imm); }
    } else {
      if w == AsmCLdsp(d.rd, d.imm) && d.rs1 == 2 && Scaled(d.imm, 7, 0x200) { LdspFields(d.rd, d.imm); }
      else { LdTypeFields(0x6000, d.rd, d.rs1, d.imm); }
    }
  }

  lemma StoreDecodes(d: Decoded, w: bv32, mxl: int)
    requires Stores(d, w)
    ensures GetCode16(w, mxl) == d
  {
    hide AsmCLwType, AsmCLdType, AsmCLwsp, AsmCLdsp, AsmCSwsp, AsmCSdsp, AsmCAddiType, AsmCAddi4spn, AsmCAddi16sp, AsmCLui, AsmCAndiType, AsmCAndType, AsmCAddType, AsmCSlli, AsmCJType, AsmCBType;
    hide WordOffset, DoubleOffset, LwspImm, LdspImm, SwspImm, SdspImm, Imm6, SignedImm6, Addi4spnImm, Addi16spImm, LuiImm, JumpOffset, BranchOffset, Short2, Short7, Reg2, Reg7;
    hide Scaled, Short, Quadrant1;
    if d.op == SW {
      if w == AsmCSwsp(d.rs2, d.imm) && d.rs1 == 2 && Scaled(d.imm, 3, 0x100) { SwspFields(d.rs2, d.imm); }
      else { LwTypeFields(0xC000, d.rs2, d.rs1, d.imm); }
    } else {
      if w == AsmCSdsp(d.rs2, d.imm) && d.rs1 == 2 && Scaled(d.imm, 7, 0x200) { SdspFields(d.rs2, d.imm); }
      else { LdTypeFields(0xE000, d.rs2, d.rs1, d.imm); }
    }
  }

  lemma AddiDecodes(d: Decoded, w: bv32, mxl: int)
    requires Immediates(d, w, mxl) && d.op in {ADDI, ADDIW, LUI}
    ensures GetCode16(w, mxl) == d
  {
    hide AsmCLwType, AsmCLdType, AsmCLwsp, AsmCLdsp, AsmCSwsp, AsmCSdsp, AsmCAddiType, AsmCAddi4spn, AsmCAddi16sp, AsmCLui, AsmCAndiType, AsmCAndType, AsmCAddType, AsmCSlli, AsmCJType, AsmCBType;
    hide WordOffset, DoubleOffset, LwspImm, LdspImm, SwspImm, SdspImm, Imm6, SignedImm6, Addi4spnImm, Addi16spImm, LuiImm, JumpOffset, BranchOffset, Short2, Short7, Reg2, Reg7;
    hide Scaled, Short, Six, Signed6, Arithmetic, Quadrant2;
    if d.op == ADDI {
      if d.rs1 == d.rd && Signed6(d.imm) && w == AsmCAddiType(0x0001, d.rd, d.imm) { AddiTypeFields(0x0001, d.rd, d.imm); }
      else if d.rs1 == 0 && Signed6(d.imm) && w == AsmCAddiType(0x4001, d.rd, d.imm) { AddiTypeFields(0x4001, d.rd, d.imm); }
      else if d.rs1 == 2 && d.rd == 2 && StackStep(d.imm) && w == AsmCAddi16sp(d.imm) { Addi16spFields(d.imm); }
      else { Addi4spnFields(d.rd, d.imm); }
    } else if d.op == ADDIW {
      AddiTypeFields(0x2001, d.rd, d.imm);
    } else {
      LuiFields(d.rd, d.imm);
    }
  }

  lemma ShiftDecodes(d: Decoded, w: bv32, mxl: int)
    requires Immediates(d, w, mxl) && d.op in {ANDI, SRLI, SRAI, SLLI}
    ensures GetCode16(w, mxl) == d
  {
    hide AsmCLwType, AsmCLdType, AsmCLwsp, AsmCLdsp, AsmCSwsp, AsmCSdsp, AsmCAddiType, AsmCAddi4spn, AsmCAddi16sp, AsmCLui, AsmCAndiType, AsmCAndType, AsmCAddType, AsmCSlli, AsmCJType, AsmCBType;
    hide WordOffset, DoubleOffset, LwspImm, LdspImm, SwspImm, SdspImm, Imm6, SignedImm6, Addi4spnImm, Addi16spImm, LuiImm, JumpOffset, BranchOffset, Short2, Short7, Reg2, Reg7;
    hide Scaled, Short, Six, Signed6, Quadrant0;
    if d.op == SLLI {
      SlliFields(d.rd, d.imm);
    } else {
      AndiTypeFields(if d.op == ANDI then 0x8801 else if d.op == SRLI then 0x8001 else 0x8401, d.rd, d.imm);
      KindBits(w);
    }
  }

  /** Bits 10 and 11 of a word, alone, together and with bit 12. */
  lemma KindBits(w: bv32)
    ensures (w >> 10) & 3 == 0 ==> (w >> 11) & 1 == 0 && (w >> 10) & 1 == 0 && (w >> 10) & 7 in {0, 4}
    ensures (w >> 10) & 3 == 1 ==> (w >> 11) & 1 == 0 && (w >> 10) & 1 == 1 && (w >> 10) & 7 in {1, 5}
    ensures (w >> 10) & 3 == 2 ==> (w >> 11) & 1 == 1 && (w >> 10) & 1 == 0 && (w >> 10) & 7 in {2, 6}
    ensures (w >> 10) & 3 == 3 ==> (w >> 11) & 1 == 1 && (w >> 10) & 1 == 1 && (w >> 10) & 7 in {3, 7}
    ensures (w >> 10) & 3 in {0, 1, 2, 3}
  {}

  lemma RegisterDecodes(d: Decoded, w: bv32, mxl: int)
    requires Registers(d, w)
    ensures GetCode16(w, mxl) == d
  {
    hide GetCode16;
    if d.op == ADD { AddDecodes(d, w, mxl); } else if d.op == JALR { JalrDecodes(d, w, mxl); } else { AndTypeDecodes(d, w, mxl); }
  }

  lemma AddDecodes(d: Decoded, w: bv32, mxl: int)
    requires Registers(d, w) && d.op == ADD
    ensures GetCode16(w, mxl) == d
  {
    hide AsmCLwType, AsmCLdType, AsmCLwsp, AsmCLdsp, AsmCSwsp, AsmCSdsp, AsmCAddiType, AsmCAddi4spn, AsmCAddi16sp, AsmCLui, AsmCAndiType, AsmCAndType, AsmCAddType, AsmCSlli, AsmCJType, AsmCBType;
    hide WordOffset, DoubleOffset, LwspImm, LdspImm, SwspImm, SdspImm, Imm6, SignedImm6, Addi4spnImm, Addi16spImm, LuiImm, JumpOffset, BranchOffset, Short2, Short7, Reg2, Reg7;
    hide Short, Quadrant0;
    AddTypeFields(if d.rs1 == 0 && w == AsmCAddType(0x8002, d.rd, d.rs2) then 0x8002 else 0x9002, d.rd, d.rs2);
  }

  lemma JalrDecodes(d: Decoded, w: bv32, mxl: int)
    requires Registers(d, w) && d.op == JALR
    ensures GetCode16(w, mxl) == d
  {
    hide AsmCLwType, AsmCLdType, AsmCLwsp, AsmCLdsp, AsmCSwsp, AsmCSdsp, AsmCAddiType, AsmCAddi4spn, AsmCAddi16sp, AsmCLui, AsmCAndiType, AsmCAndType, AsmCAddType, AsmCSlli, AsmCJType, AsmCBType;
    hide WordOffset, DoubleOffset, LwspImm, LdspImm, SwspImm, SdspImm, Imm6, SignedImm6, Addi4spnImm, Addi16spImm, LuiImm, JumpOffset, BranchOffset, Short2, Short7, Reg2, Reg7;
    hide Short, Quadrant0;
    AddTypeFields(if d.rd == 0 then 0x8002 else 0x9002, d.rs1, 0);
  }

  lemma AndTypeDecodes(d: Decoded, w: bv32, mxl: int)
    requires Registers(d, w) && d.op != ADD && d.op != JALR
    ensures GetCode16(w, mxl) == d
  {
    hide AsmCLwType, AsmCLdType, AsmCLwsp, AsmCLdsp, AsmCSwsp, AsmCSdsp, AsmCAddiType, AsmCAddi4spn, AsmCAddi16sp, AsmCLui, AsmCAndiType, AsmCAndType, AsmCAddType, AsmCSlli, AsmCJType, AsmCBType;
    hide WordOffset, DoubleOffset, LwspImm, LdspImm, SwspImm, SdspImm, Imm6, SignedImm6, Addi4spnImm, Addi16spImm, LuiImm, JumpOffset, BranchOffset, Short2, Short7, Reg2, Reg7;
    hide Short, Quadrant0;
    AndTypeFields(CodeOfAndType(d.op), d.rd, d.rs2);
  }

  lemma JumpDecodes(d: Decoded, w: bv32, mxl: int)
    requires Jumps(d, w, mxl)
    ensures GetCode16(w, mxl) == d
  {
    hide AsmCLwType, AsmCLdType, AsmCLwsp, AsmCLdsp, AsmCSwsp, AsmCSdsp, AsmCAddiType, AsmCAddi4spn, AsmCAddi16sp, AsmCLui, AsmCAndiType, AsmCAndType, AsmCAddType, AsmCSlli, AsmCJType, AsmCBType;
    hide WordOffset, DoubleOffset, LwspImm, LdspImm, SwspImm, SdspImm, Imm6, SignedImm6, Addi4spnImm, Addi16spImm, LuiImm, JumpOffset, BranchOffset, Short2, Short7;
    hide JumpDistance, BranchDistance, Short, Quadrant0;
    if d.op == JAL {
      JTypeFields(if d.rd == 0 then 0xA001 else 0x2001, d.imm);
    } else if d.op == BEQ {
      BTypeFields(0xC001, d.rs1, d.imm);
    } else if d.op == BNE {
      BTypeFields(0xE001, d.rs1, d.imm);
    }
  }

  // ----- and every word it accepts is one of theirs -----

  /** The bits of a 16-bit word that select its form. */
  lemma FormBits(w: bv32)
    requires w <= 0xFFFF
    ensures Quadrant(w) in {0, 1, 2, 3} && Selector(w) in {0, 1, 2, 3, 4, 5, 6, 7}
    ensures w & 0xE003 == (Selector(w) << 13) | Quadrant(w)
  {}

  lemma LwTypeWord(w: bv32, cmd: bv32)
    requires w <= 0xFFFF && w & 0xE003 == cmd
    ensures Short(Short2(w)) && Short(Short7(w)) && Scaled(WordOffset(w), 3, 0x80) && w == AsmCLwType(cmd, Short2(w), Short7(w), WordOffset(w))
  {}

  lemma LdTypeWord(w: bv32, cmd: bv32)
    requires w <= 0xFFFF && w & 0xE003 == cmd
    ensures Short(Short2(w)) && Short(Short7(w)) && Scaled(DoubleOffset(w), 7, 0x100) && w == AsmCLdType(cmd, Short2(w), Short7(w), DoubleOffset(w))
  {}

  lemma Addi4spnWord(w: bv32)
    requires w <= 0xFFFF && w & 0xE003 == 0 && (w >> 5) & 0xFF != 0
    ensures Short(Short2(w)) && Scaled(Addi4spnImm(w), 3, 0x400) && Addi4spnImm(w) != 0 && w == AsmCAddi4spn(Short2(w), Addi4spnImm(w))
  {}

  lemma LwspWord(w: bv32)
    requires w <= 0xFFFF && w & 0xE003 == 0x4002
    ensures Scaled(LwspImm(w), 3, 0x100) && w == AsmCLwsp(Reg7(w), LwspImm(w))
  {}

  lemma LdspWord(w: bv32)
    requires w <= 0xFFFF && w & 0xE003 == 0x6002
    ensures Scaled(LdspImm(w), 7, 0x200) && w == AsmCLdsp(Reg7(w), LdspImm(w))
  {}

  lemma SwspWord(w: bv32)
    requires w <= 0xFFFF && w & 0xE003 == 0xC002
    ensures Scaled(SwspImm(w), 3, 0x100) && w == AsmCSwsp(Reg2(w), SwspImm(w))
  {}

  lemma SdspWord(w: bv32)
    requires w <= 0xFFFF && w & 0xE003 == 0xE002
    ensures Scaled(SdspImm(w), 7, 0x200) && w == AsmCSdsp(Reg2(w), SdspImm(w))
  {}

  lemma SlliWord(w: bv32)
    requires w <= 0xFFFF && w & 0xE003 == 0x0002
    ensures Six(Imm6(w)) && w == AsmCSlli(Reg7(w), Imm6(w))
  {}

  lemma AddiTypeWord(w: bv32, cmd: bv32)
    requires w <= 0xFFFF && w & 0xE003 == cmd
    ensures Signed6(SignedImm6(w)) && w == AsmCAddiType(cmd, Reg7(w), SignedImm6(w))
  {}

  lemma LuiWord(w: bv32)
    requires w <= 0xFFFF && w & 0xE003 == 0x6001 && LuiImm(w) != 0
    ensures LuiImmediate(LuiImm(w)) && w == AsmCLui(Reg7(w), LuiImm(w)) | (Reg(Reg7(w)) << 7)
  {}

  lemma Addi16spWord(w: bv32)
    requires w <= 0xFFFF && w & 0xE003 == 0x6001 && Reg7(w) == 2 && Addi16spImm(w) != 0
    ensures StackStep(Addi16spImm(w)) && w == AsmCAddi16sp(Addi16spImm(w))
  {}

  lemma ShiftTypeWord(w: bv32, cmd: bv32)
    requires w <= 0xFFFF && w & 0xEC03 == cmd
    ensures Short(Short7(w)) && Six(Imm6(w)) && w == AsmCAndiType(cmd, Short7(w), Imm6(w))
  {}

  lemma AndiTypeWord(w: bv32)
    requires w <= 0xFFFF && w & 0xEC03 == 0x8801
    ensures Short(Short7(w)) && Signed6(SignedImm6(w)) && w == AsmCAndiType(0x8801, Short7(w), SignedImm6(w))
  {}

  lemma AndTypeWord(w: bv32, cmd: bv32)
    requires w <= 0xFFFF && w & 0xFC63 == cmd
    ensures Short(Short7(w)) && Short(Short2(w)) && w == AsmCAndType(cmd, Short7(w), Short2(w))
  {}

  lemma AddTypeWord(w: bv32, cmd: bv32)
    requires w <= 0xFFFF && w & 0xF003 == cmd
    ensures w == AsmCAddType(cmd, Reg7(w), Reg2(w))
  {}

  lemma JumpRange(w: bv32)
    ensures JumpDistance(JumpOffset(w))
  {}

  lemma LowUnseen(cmd: bv32, r: bv5, x: bv32)
    ensures AsmCJType(cmd, x & 0xFFF) == AsmCJType(cmd, x) && AsmCBType(cmd, r, x & 0x1FF) == AsmCBType(cmd, r, x)
  {}

  lemma SignAbove(x: bv32)
    ensures SignExtend12(x) & 0xFFF == x & 0xFFF && SignExtend9(x) & 0x1FF == x & 0x1FF
  {}

  lemma SignUnseen(cmd: bv32, r: bv5, x: bv32)
    ensures AsmCJType(cmd, SignExtend12(x)) == AsmCJType(cmd, x) && AsmCBType(cmd, r, SignExtend9(x)) == AsmCBType(cmd, r, x)
  {
    hide AsmCJType, AsmCBType, SignExtend12, SignExtend9;
    SignAbove(x);
    LowUnseen(cmd, r, x);
    LowUnseen(cmd, r, SignExtend12(x));
    LowUnseen(cmd, r, SignExtend9(x));
  }

  lemma JBitsWord(w: bv32, cmd: bv32)
    requires w <= 0xFFFF && w & 0xE003 == cmd
    ensures w == AsmCJType(cmd, JumpBits(w))
  {}

  lemma JTypeWord(w: bv32, cmd: bv32)
    requires w <= 0xFFFF && w & 0xE003 == cmd
    ensures JumpDistance(JumpOffset(w)) && w == AsmCJType(cmd, JumpOffset(w))
  {
    JumpRange(w);
    JBitsWord(w, cmd);
    SignUnseen(cmd, 0, JumpBits(w));
    hide JumpBits, AsmCJType;
  }

  lemma BranchRange(w: bv32)
    ensures Short(Short7(w)) && BranchDistance(BranchOffset(w))
  {}

  lemma BBitsWord(w: bv32, cmd: bv32)
    requires w <= 0xFFFF && w & 0xE003 == cmd
    ensures w == AsmCBType(cmd, Short7(w), BranchBits(w))
  {}

  lemma BTypeWord(w: bv32, cmd: bv32)
    requires w <= 0xFFFF && w & 0xE003 == cmd
    ensures Short(Short7(w)) && BranchDistance(BranchOffset(w)) && w == AsmCBType(cmd, Short7(w), BranchOffset(w))
  {
    BranchRange(w);
    BBitsWord(w, cmd);
    SignUnseen(cmd, Short7(w), BranchBits(w));
    hide BranchBits, AsmCBType;
  }

  lemma WordIsLw(w: bv32)
    requires w <= 0xFFFF && w & 0xE003 == 0x4000
    ensures Loads(Decoded(LW, Short2(w), Short7(w), 0, WordOffset(w)), w)
  {
    hide AsmCLwType, AsmCLdType, AsmCLwsp, AsmCLdsp, AsmCSwsp, AsmCSdsp, AsmCAddiType, AsmCAddi4spn, AsmCAddi16sp, AsmCLui, AsmCAndiType, AsmCAndType, AsmCAddType, AsmCSlli, AsmCJType, AsmCBType;
    hide WordOffset, DoubleOffset, LwspImm, LdspImm, SwspImm, SdspImm, Imm6, SignedImm6, Addi4spnImm, Addi16spImm, LuiImm, JumpOffset, BranchOffset, Short2, Short7, Reg2, Reg7;
    hide Scaled, Short, Six, Signed6, JumpDistance, BranchDistance, LuiImmediate, StackStep;
    LwTypeWord(w, 0x4000);
  }

  lemma WordIsLd(w: bv32)
    requires w <= 0xFFFF && w & 0xE003 == 0x6000
    ensures Loads(Decoded(LD, Short2(w), Short7(w), 0, DoubleOffset(w)), w)
  {
    hide AsmCLwType, AsmCLdType, AsmCLwsp, AsmCLdsp, AsmCSwsp, AsmCSdsp, AsmCAddiType, AsmCAddi4spn, AsmCAddi16sp, AsmCLui, AsmCAndiType, AsmCAndType, AsmCAddType, AsmCSlli, AsmCJType, AsmCBType;
    hide WordOffset, DoubleOffset, LwspImm, LdspImm, SwspImm, SdspImm, Imm6, SignedImm6, Addi4spnImm, Addi16spImm, LuiImm, JumpOffset, BranchOffset, Short2, Short7, Reg2, Reg7;
    hide Scaled, Short, Six, Signed6, JumpDistance, BranchDistance, LuiImmediate, StackStep;
    LdTypeWord(w, 0x6000);
  }

  lemma WordIsSw(w: bv32)
    requires w <= 0xFFFF && w & 0xE003 == 0xC000
    ensures Stores(Decoded(SW, 0, Short7(w), Short2(w), WordOffset(w)), w)
  {
    hide AsmCLwType, AsmCLdType, AsmCLwsp, AsmCLdsp, AsmCSwsp, AsmCSdsp, AsmCAddiType, AsmCAddi4spn, AsmCAddi16sp, AsmCLui, AsmCAndiType, AsmCAndType, AsmCAddType, AsmCSlli, AsmCJType, AsmCBType;
    hide WordOffset, DoubleOffset, LwspImm, LdspImm, SwspImm, SdspImm, Imm6, SignedImm6, Addi4spnImm, Addi16spImm, LuiImm, JumpOffset, BranchOffset, Short2, Short7, Reg2, Reg7;
    hide Scaled, Short, Six, Signed6, JumpDistance, BranchDistance, LuiImmediate, StackStep;
    LwTypeWord(w, 0xC000);
  }

  lemma WordIsSd(w: bv32)
    requires w <= 0xFFFF && w & 0xE003 == 0xE000
    ensures Stores(Decoded(SD, 0, Short7(w), Short2(w), DoubleOffset(w)), w)
  {
    hide AsmCLwType, AsmCLdType, AsmCLwsp, AsmCLdsp, AsmCSwsp, AsmCSdsp, AsmCAddiType, AsmCAddi4spn, AsmCAddi16sp, AsmCLui, AsmCAndiType, AsmCAndType, AsmCAddType, AsmCSlli, AsmCJType, AsmCBType;
    hide WordOffset, DoubleOffset, LwspImm, LdspImm, SwspImm, SdspImm, Imm6, SignedImm6, Addi4spnImm, Addi16spImm, LuiImm, JumpOffset, BranchOffset, Short2, Short7, Reg2, Reg7;
    hide Scaled, Short, Six, Signed6, JumpDistance, BranchDistance, LuiImmediate, StackStep;
    LdTypeWord(w, 0xE000);
  }

  lemma WordIsAddi4spn(w: bv32)
    requires w <= 0xFFFF && w & 0xE003 == 0 && (w >> 5) & 0xFF != 0
    ensures Immediates(Decoded(ADDI, Short2(w), 2, 0, Addi4spnImm(w)), w, 0)
  {
    hide AsmCLwType, AsmCLdType, AsmCLwsp, AsmCLdsp, AsmCSwsp, AsmCSdsp, AsmCAddiType, AsmCAddi4spn, AsmCAddi16sp, AsmCLui, AsmCAndiType, AsmCAndType, AsmCAddType, AsmCSlli, AsmCJType, AsmCBType;
    hide WordOffset, DoubleOffset, LwspImm, LdspImm, SwspImm, SdspImm, Imm6, SignedImm6, Addi4spnImm, Addi16spImm, LuiImm, JumpOffset, BranchOffset, Short2, Short7, Reg2, Reg7;
    hide Scaled, Short, Six, Signed6, JumpDistance, BranchDistance, LuiImmediate, StackStep;
    Addi4spnWord(w);
  }

  lemma WordIsLwsp(w: bv32)
    requires w <= 0xFFFF && w & 0xE003 == 0x4002
    ensures Loads(Decoded(LW, Reg7(w), 2, 0, LwspImm(w)), w)
  {
    hide AsmCLwType, AsmCLdType, AsmCLwsp, AsmCLdsp, AsmCSwsp, AsmCSdsp, AsmCAddiType, AsmCAddi4spn, AsmCAddi16sp, AsmCLui, AsmCAndiType, AsmCAndType, AsmCAddType, AsmCSlli, AsmCJType, AsmCBType;
    hide WordOffset, DoubleOffset, LwspImm, LdspImm, SwspImm, SdspImm, Imm6, SignedImm6, Addi4spnImm, Addi16spImm, LuiImm, JumpOffset, BranchOffset, Short2, Short7, Reg2, Reg7;
    hide Scaled, Short, Six, Signed6, JumpDistance, BranchDistance, LuiImmediate, StackStep;
    LwspWord(w);
  }

  lemma WordIsLdsp(w: bv32)
    requires w <= 0xFFFF && w & 0xE003 == 0x6002
    ensures Loads(Decoded(LD, Reg7(w), 2, 0, LdspImm(w)), w)
  {
    hide AsmCLwType, AsmCLdType, AsmCLwsp, AsmCLdsp, AsmCSwsp, AsmCSdsp, AsmCAddiType, AsmCAddi4spn, AsmCAddi16sp, AsmCLui, AsmCAndiType, AsmCAndType, AsmCAddType, AsmCSlli, AsmCJType, AsmCBType;
    hide WordOffset, DoubleOffset, LwspImm, LdspImm, SwspImm, SdspImm, Imm6, SignedImm6, Addi4spnImm, Addi16spImm, LuiImm, JumpOffset, BranchOffset, Short2, Short7, Reg2, Reg7;
    hide Scaled, Short, Six, Signed6, JumpDistance, BranchDistance, LuiImmediate, StackStep;
    LdspWord(w);
  }

  lemma WordIsSwsp(w: bv32)
    requires w <= 0xFFFF && w & 0xE003 == 0xC002
    ensures Stores(Decoded(SW, 0, 2, Reg2(w), SwspImm(w)), w)
  {
    hide AsmCLwType, AsmCLdType, AsmCLwsp, AsmCLdsp, AsmCSwsp, AsmCSdsp, AsmCAddiType, AsmCAddi4spn, AsmCAddi16sp, AsmCLui, AsmCAndiType, AsmCAndType, AsmCAddType, AsmCSlli, AsmCJType, AsmCBType;
    hide WordOffset, DoubleOffset, LwspImm, LdspImm, SwspImm, SdspImm, Imm6, SignedImm6, Addi4spnImm, Addi16spImm, LuiImm, JumpOffset, BranchOffset, Short2, Short7, Reg2, Reg7;
    hide Scaled, Short, Six, Signed6, JumpDistance, BranchDistance, LuiImmediate, StackStep;
    SwspWord(w);
  }

  lemma WordIsSdsp(w: bv32)
    requires w <= 0xFFFF && w & 0xE003 == 0xE002
    ensures Stores(Decoded(SD, 0, 2, Reg2(w), SdspImm(w)), w)
  {
    hide AsmCLwType, AsmCLdType, AsmCLwsp, AsmCLdsp, AsmCSwsp, AsmCSdsp, AsmCAddiType, AsmCAddi4spn, AsmCAddi16sp, AsmCLui, AsmCAndiType, AsmCAndType, AsmCAddType, AsmCSlli, AsmCJType, AsmCBType;
    hide WordOffset, DoubleOffset, LwspImm, LdspImm, SwspImm, SdspImm, Imm6, SignedImm6, Addi4spnImm, Addi16spImm, LuiImm, JumpOffset, BranchOffset, Short2, Short7, Reg2, Reg7;
    hide Scaled, Short, Six, Signed6, JumpDistance, BranchDistance, LuiImmediate, StackStep;
    SdspWord(w);
  }

  lemma WordIsSlli(w: bv32)
    requires w <= 0xFFFF && w & 0xE003 == 0x0002
    ensures Immediates(Decoded(SLLI, Reg7(w), Reg7(w), 0, Imm6(w)), w, 0)
  {
    hide AsmCLwType, AsmCLdType, AsmCLwsp, AsmCLdsp, AsmCSwsp, AsmCSdsp, AsmCAddiType, AsmCAddi4spn, AsmCAddi16sp, AsmCLui, AsmCAndiType, AsmCAndType, AsmCAddType, AsmCSlli, AsmCJType, AsmCBType;
    hide WordOffset, DoubleOffset, LwspImm, LdspImm, SwspImm, SdspImm, Imm6, SignedImm6, Addi4spnImm, Addi16spImm, LuiImm, JumpOffset, BranchOffset, Short2, Short7, Reg2, Reg7;
    hide Scaled, Short, Six, Signed6, JumpDistance, BranchDistance, LuiImmediate, StackStep;
    SlliWord(w);
  }

  lemma WordIsAddi(w: bv32)
    requires w <= 0xFFFF && w & 0xE003 == 0x0001
    ensures Immediates(Decoded(ADDI, Reg7(w), Reg7(w), 0, SignedImm6(w)), w, 0)
  {
    hide AsmCLwType, AsmCLdType, AsmCLwsp, AsmCLdsp, AsmCSwsp, AsmCSdsp, AsmCAddiType, AsmCAddi4spn, AsmCAddi16sp, AsmCLui, AsmCAndiType, AsmCAndType, AsmCAddType, AsmCSlli, AsmCJType, AsmCBType;
    hide WordOffset, DoubleOffset, LwspImm, LdspImm, SwspImm, SdspImm, Imm6, SignedImm6, Addi4spnImm, Addi16spImm, LuiImm, JumpOffset, BranchOffset, Short2, Short7, Reg2, Reg7;
    hide Scaled, Short, Six, Signed6, JumpDistance, BranchDistance, LuiImmediate, StackStep;
    AddiTypeWord(w, 0x0001);
  }

  lemma WordIsAddiw(w: bv32, mxl: int)
    requires w <= 0xFFFF && w & 0xE003 == 0x2001 && mxl != 1
    ensures Immediates(Decoded(ADDIW, Reg7(w), Reg7(w), 0, SignedImm6(w)), w, mxl)
  {
    hide AsmCLwType, AsmCLdType, AsmCLwsp, AsmCLdsp, AsmCSwsp, AsmCSdsp, AsmCAddiType, AsmCAddi4spn, AsmCAddi16sp, AsmCLui, AsmCAndiType, AsmCAndType, AsmCAddType, AsmCSlli, AsmCJType, AsmCBType;
    hide WordOffset, DoubleOffset, LwspImm, LdspImm, SwspImm, SdspImm, Imm6, SignedImm6, Addi4spnImm, Addi16spImm, LuiImm, JumpOffset, BranchOffset, Short2, Short7, Reg2, Reg7;
    hide Scaled, Short, Six, Signed6, JumpDistance, BranchDistance, LuiImmediate, StackStep;
    AddiTypeWord(w, 0x2001);
  }

  lemma WordIsLi(w: bv32)
    requires w <= 0xFFFF && w & 0xE003 == 0x4001
    ensures Immediates(Decoded(ADDI, Reg7(w), 0, 0, SignedImm6(w)), w, 0)
  {
    hide AsmCLwType, AsmCLdType, AsmCLwsp, AsmCLdsp, AsmCSwsp, AsmCSdsp, AsmCAddiType, AsmCAddi4spn, AsmCAddi16sp, AsmCLui, AsmCAndiType, AsmCAndType, AsmCAddType, AsmCSlli, AsmCJType, AsmCBType;
    hide WordOffset, DoubleOffset, LwspImm, LdspImm, SwspImm, SdspImm, Imm6, SignedImm6, Addi4spnImm, Addi16spImm, LuiImm, JumpOffset, BranchOffset, Short2, Short7, Reg2, Reg7;
    hide Scaled, Short, Six, Signed6, JumpDistance, BranchDistance, LuiImmediate, StackStep;
    AddiTypeWord(w, 0x4001);
  }

  lemma WordIsLui(w: bv32)
    requires w <= 0xFFFF && w & 0xE003 == 0x6001 && Reg7(w) != 2 && LuiImm(w) != 0
    ensures Immediates(Decoded(LUI, Reg7(w), 0, 0, LuiImm(w)), w, 0)
  {
    hide AsmCLwType, AsmCLdType, AsmCLwsp, AsmCLdsp, AsmCSwsp, AsmCSdsp, AsmCAddiType, AsmCAddi4spn, AsmCAddi16sp, AsmCLui, AsmCAndiType, AsmCAndType, AsmCAddType, AsmCSlli, AsmCJType, AsmCBType;
    hide WordOffset, DoubleOffset, LwspImm, LdspImm, SwspImm, SdspImm, Imm6, SignedImm6, Addi4spnImm, Addi16spImm, LuiImm, JumpOffset, BranchOffset, Short2, Short7, Reg2, Reg7;
    hide Scaled, Short, Six, Signed6, JumpDistance, BranchDistance, LuiImmediate, StackStep;
    LuiWord(w);
  }

  lemma WordIsAddi16sp(w: bv32)
    requires w <= 0xFFFF && w & 0xE003 == 0x6001 && Reg7(w) == 2 && Addi16spImm(w) != 0
    ensures Immediates(Decoded(ADDI, 2, 2, 0, Addi16spImm(w)), w, 0)
  {
    hide AsmCLwType, AsmCLdType, AsmCLwsp, AsmCLdsp, AsmCSwsp, AsmCSdsp, AsmCAddiType, AsmCAddi4spn, AsmCAddi16sp, AsmCLui, AsmCAndiType, AsmCAndType, AsmCAddType, AsmCSlli, AsmCJType, AsmCBType;
    hide WordOffset, DoubleOffset, LwspImm, LdspImm, SwspImm, SdspImm, Imm6, SignedImm6, Addi4spnImm, Addi16spImm, LuiImm, JumpOffset, BranchOffset, Short2, Short7, Reg2, Reg7;
    hide Scaled, Short, Six, Signed6, JumpDistance, BranchDistance, LuiImmediate, StackStep;
    Addi16spWord(w);
  }

  lemma WordIsJ(w: bv32)
    requires w <= 0xFFFF && w & 0xE003 == 0xA001
    ensures Jumps(Decoded(JAL, 0, 0, 0, JumpOffset(w)), w, 0)
  {
    hide AsmCLwType, AsmCLdType, AsmCLwsp, AsmCLdsp, AsmCSwsp, AsmCSdsp, AsmCAddiType, AsmCAddi4spn, AsmCAddi16sp, AsmCLui, AsmCAndiType, AsmCAndType, AsmCAddType, AsmCSlli, AsmCJType, AsmCBType;
    hide WordOffset, DoubleOffset, LwspImm, LdspImm, SwspImm, SdspImm, Imm6, SignedImm6, Addi4spnImm, Addi16spImm, LuiImm, JumpOffset, BranchOffset, Short2, Short7, Reg2, Reg7;
    hide Scaled, Short, Six, Signed6, JumpDistance, BranchDistance, LuiImmediate, StackStep;
    JTypeWord(w, 0xA001);
  }

  lemma WordIsJal(w: bv32)
    requires w <= 0xFFFF && w & 0xE003 == 0x2001
    ensures Jumps(Decoded(JAL, 1, 0, 0, JumpOffset(w)), w, 1)
  {
    hide AsmCLwType, AsmCLdType, AsmCLwsp, AsmCLdsp, AsmCSwsp, AsmCSdsp, AsmCAddiType, AsmCAddi4spn, AsmCAddi16sp, AsmCLui, AsmCAndiType, AsmCAndType, AsmCAddType, AsmCSlli, AsmCJType, AsmCBType;
    hide WordOffset, DoubleOffset, LwspImm, LdspImm, SwspImm, SdspImm, Imm6, SignedImm6, Addi4spnImm, Addi16spImm, LuiImm, JumpOffset, BranchOffset, Short2, Short7, Reg2, Reg7;
    hide Scaled, Short, Six, Signed6, JumpDistance, BranchDistance, LuiImmediate, StackStep;
    JTypeWord(w, 0x2001);
  }

  lemma WordIsBeqz(w: bv32)
    requires w <= 0xFFFF && w & 0xE003 == 0xC001
    ensures Jumps(Decoded(BEQ, 0, Short7(w), 0, BranchOffset(w)), w, 0)
  {
    hide AsmCLwType, AsmCLdType, AsmCLwsp, AsmCLdsp, AsmCSwsp, AsmCSdsp, AsmCAddiType, AsmCAddi4spn, AsmCAddi16sp, AsmCLui, AsmCAndiType, AsmCAndType, AsmCAddType, AsmCSlli, AsmCJType, AsmCBType;
    hide WordOffset, DoubleOffset, LwspImm, LdspImm, SwspImm, SdspImm, Imm6, SignedImm6, Addi4spnImm, Addi16spImm, LuiImm, JumpOffset, BranchOffset, Short2, Short7, Reg2, Reg7;
    hide Scaled, Short, Six, Signed6, JumpDistance, BranchDistance, LuiImmediate, StackStep;
    BTypeWord(w, 0xC001);
  }

  lemma WordIsBnez(w: bv32)
    requires w <= 0xFFFF && w & 0xE003 == 0xE001
    ensures Jumps(Decoded(BNE, 0, Short7(w), 0, BranchOffset(w)), w, 0)
  {
    hide AsmCLwType, AsmCLdType, AsmCLwsp, AsmCLdsp, AsmCSwsp, AsmCSdsp, AsmCAddiType, AsmCAddi4spn, AsmCAddi16sp, AsmCLui, AsmCAndiType, AsmCAndType, AsmCAddType, AsmCSlli, AsmCJType, AsmCBType;
    hide WordOffset, DoubleOffset, LwspImm, LdspImm, SwspImm, SdspImm, Imm6, SignedImm6, Addi4spnImm, Addi16spImm, LuiImm, JumpOffset, BranchOffset, Short2, Short7, Reg2, Reg7;
    hide Scaled, Short, Six, Signed6, JumpDistance, BranchDistance, LuiImmediate, StackStep;
    BTypeWord(w, 0xE001);
  }

  /** The width of the machine matters to one code only. */
  lemma AnyWidth(d: Decoded, w: bv32, mxl: int)
    ensures d.op != ADDIW && Immediates(d, w, 0) ==> Immediates(d, w, mxl)
    ensures Jumps(d, w, 0) ==> Jumps(d, w, mxl)
  {
    hide AsmCLwType, AsmCLdType, AsmCLwsp, AsmCLdsp, AsmCSwsp, AsmCSdsp, AsmCAddiType, AsmCAddi4spn, AsmCAddi16sp, AsmCLui, AsmCAndiType, AsmCAndType, AsmCAddType, AsmCSlli, AsmCJType, AsmCBType;
  }

  lemma Decoded0(w: bv32, mxl: int)
    requires w <= 0xFFFF && Quadrant(w) == 0 && GetCode16(w, mxl).op != ERROR
    ensures Encodes(GetCode16(w, mxl), w, mxl)
  {
    hide WordOffset, DoubleOffset, LwspImm, LdspImm, SwspImm, SdspImm, Imm6, SignedImm6, Addi4spnImm, Addi16spImm, LuiImm, JumpOffset, BranchOffset, Short2, Short7, Reg2, Reg7;
    hide Loads, Stores, Immediates, Jumps, Registers;
    FormBits(w);
    var f := Selector(w);
    AnyWidth(GetCode16(w, mxl), w, mxl);
    if f == 0 { WordIsAddi4spn(w); }
    else if f == 2 { WordIsLw(w); }
    else if f == 3 { WordIsLd(w); }
    else if f == 6 { WordIsSw(w); }
    else if f == 7 { WordIsSd(w); }
  }

  /** Bits 5, 6 and 10 to 12 select among the register and immediate operations of one code. */
  lemma ArithmeticBits(w: bv32)
    requires w <= 0xFFFF && w & 0xE003 == 0x8001
    ensures var kind, sub := (w >> 10) & 7, (w >> 5) & 3;
      && w & 0xFC63 == 0x8001 | (kind << 10) | (sub << 5) && w & 0xEC03 == 0x8001 | ((kind & 3) << 10)
      && (w >> 11) & 1 == (kind >> 1) & 1 && (w >> 10) & 1 == kind & 1
  {}

  lemma DecodedArithmetic(w: bv32, mxl: int)
    requires w <= 0xFFFF && w & 0xE003 == 0x8001 && Arithmetic(w).op != ERROR
    ensures Encodes(Arithmetic(w), w, mxl)
  {
    hide WordOffset, DoubleOffset, LwspImm, LdspImm, SwspImm, SdspImm, Imm6, SignedImm6, Addi4spnImm, Addi16spImm, LuiImm, JumpOffset, BranchOffset, Short2, Short7, Reg2, Reg7;
    hide Loads, Stores, Immediates, Jumps, Registers;
    var kind, sub, d := (w >> 10) & 7, (w >> 5) & 3, Arithmetic(w);
    ArithmeticBits(w);
    AnyWidth(d, w, mxl);
    if d.op in {AND, OR, XOR, SUB, ADDW, SUBW} {
      WordIsRegisters(w, d.op);
    } else {
      ShiftKinds(kind);
      if d.op == ANDI { WordIsAndi(w); }
      else { WordIsShift(w, d.op); }
    }
  }

  lemma WordIsRegisters(w: bv32, op: Op)
    requires w <= 0xFFFF && op in {AND, OR, XOR, SUB, ADDW, SUBW} && w & 0xFC63 == CodeOfAndType(op)
    ensures Registers(Decoded(op, Short7(w), Short7(w), Short2(w), 0), w)
  {
    hide AsmCLwType, AsmCLdType, AsmCLwsp, AsmCLdsp, AsmCSwsp, AsmCSdsp, AsmCAddiType, AsmCAddi4spn, AsmCAddi16sp, AsmCLui, AsmCAndiType, AsmCAndType, AsmCAddType, AsmCSlli, AsmCJType, AsmCBType;
    hide WordOffset, DoubleOffset, LwspImm, LdspImm, SwspImm, SdspImm, Imm6, SignedImm6, Addi4spnImm, Addi16spImm, LuiImm, JumpOffset, BranchOffset, Short2, Short7, Reg2, Reg7;
    hide Short;
    AndTypeWord(w, CodeOfAndType(op));
  }

  lemma WordIsAndi(w: bv32)
    requires w <= 0xFFFF && w & 0xEC03 == 0x8801
    ensures Immediates(Decoded(ANDI, Short7(w), Short7(w), 0, SignedImm6(w)), w, 0)
  {
    hide AsmCLwType, AsmCLdType, AsmCLwsp, AsmCLdsp, AsmCSwsp, AsmCSdsp, AsmCAddiType, AsmCAddi4spn, AsmCAddi16sp, AsmCLui, AsmCAndiType, AsmCAndType, AsmCAddType, AsmCSlli, AsmCJType, AsmCBType;
    hide WordOffset, DoubleOffset, LwspImm, LdspImm, SwspImm, SdspImm, Imm6, SignedImm6, Addi4spnImm, Addi16spImm, LuiImm, JumpOffset, BranchOffset, Short2, Short7, Reg2, Reg7;
    hide Short, Six, Signed6;
    AndiTypeWord(w);
  }

  lemma WordIsShift(w: bv32, op: Op)
    requires w <= 0xFFFF && op in {SRLI, SRAI} && w & 0xEC03 == if op == SRLI then 0x8001 else 0x8401
    ensures Immediates(Decoded(op, Short7(w), Short7(w), 0, Imm6(w)), w, 0)
  {
    hide AsmCLwType, AsmCLdType, AsmCLwsp, AsmCLdsp, AsmCSwsp, AsmCSdsp, AsmCAddiType, AsmCAddi4spn, AsmCAddi16sp, AsmCLui, AsmCAndiType, AsmCAndType, AsmCAddType, AsmCSlli, AsmCJType, AsmCBType;
    hide WordOffset, DoubleOffset, LwspImm, LdspImm, SwspImm, SdspImm, Imm6, SignedImm6, Addi4spnImm, Addi16spImm, LuiImm, JumpOffset, BranchOffset, Short2, Short7, Reg2, Reg7;
    hide Short, Six, Signed6;
    ShiftTypeWord(w, if op == SRLI then 0x8001 else 0x8401);
  }

  lemma ShiftKinds(kind: bv32)
    requires kind <= 7
    ensures (kind >> 1) & 1 == 0 && kind & 1 == 0 ==> 0x8001 | ((kind & 3) << 10) == 0x8001
    ensures (kind >> 1) & 1 == 0 && kind & 1 == 1 ==> 0x8001 | ((kind & 3) << 10) == 0x8401
    ensures (kind >> 1) & 1 == 1 && kind & 1 == 0 ==> 0x8001 | ((kind & 3) << 10) == 0x8801
    ensures kind & 1 == 0 || kind & 1 == 1
  {}

  lemma Decoded1(w: bv32, mxl: int)
    requires w <= 0xFFFF && Quadrant(w) == 1 && GetCode16(w, mxl).op != ERROR
    ensures Encodes(GetCode16(w, mxl), w, mxl)
  {
    hide WordOffset, DoubleOffset, LwspImm, LdspImm, SwspImm, SdspImm, Imm6, SignedImm6, Addi4spnImm, Addi16spImm, LuiImm, JumpOffset, BranchOffset, Short2, Short7, Reg2, Reg7;
    hide Loads, Stores, Immediates, Jumps, Registers, Arithmetic;
    FormBits(w);
    var f := Selector(w);
    AnyWidth(GetCode16(w, mxl), w, mxl);
    if f == 0 { WordIsAddi(w); }
    else if f == 1 { if mxl == 1 { WordIsJal(w); } else { WordIsAddiw(w, mxl); } }
    else if f == 2 { WordIsLi(w); }
    else if f == 3 { if Reg7(w) != 2 { WordIsLui(w); } else { WordIsAddi16sp(w); } }
    else if f == 4 { DecodedArithmetic(w, mxl); }
    else if f == 5 { WordIsJ(w); }
    else if f == 6 { WordIsBeqz(w); }
    else { WordIsBnez(w); }
  }

  lemma AddBits(w: bv32)
    requires w <= 0xFFFF && w & 0xE003 == 0x8002
    ensures w & 0xF003 == if (w >> 12) & 1 == 1 then 0x9002 else 0x8002
    ensures (w >> 12) & 1 == 1 && Reg2(w) == 0 && Reg7(w) == 0 ==> w == 0x9002
  {}

  /** C.MV, C.ADD, C.JR, C.JALR and C.EBREAK. */
  lemma WordIsAddType(w: bv32, mxl: int)
    requires w <= 0xFFFF && w & 0xE003 == 0x8002 && Quadrant2(w).op != ERROR
    ensures Registers(Quadrant2(w), w) || Jumps(Quadrant2(w), w, mxl)
  {
    hide Registers, Jumps, Quadrant2;
    if (w >> 12) & 1 == 1 { WordIsAdd(w, mxl); } else { WordIsMove(w, mxl); }
  }

  lemma WordIsAdd(w: bv32, mxl: int)
    requires w <= 0xFFFF && w & 0xE003 == 0x8002 && Quadrant2(w).op != ERROR && (w >> 12) & 1 == 1
    ensures Registers(Quadrant2(w), w) || Jumps(Quadrant2(w), w, mxl)
  {
    hide AsmCLwType, AsmCLdType, AsmCLwsp, AsmCLdsp, AsmCSwsp, AsmCSdsp, AsmCAddiType, AsmCAddi4spn, AsmCAddi16sp, AsmCLui, AsmCAndiType, AsmCAndType, AsmCAddType, AsmCSlli, AsmCJType, AsmCBType;
    hide WordOffset, DoubleOffset, LwspImm, LdspImm, SwspImm, SdspImm, Imm6, Reg2, Reg7;
    FormBits(w);
    SelectorFour(w);
    AddBits(w);
    AddTypeWord(w, 0x9002);
  }

  lemma WordIsMove(w: bv32, mxl: int)
    requires w <= 0xFFFF && w & 0xE003 == 0x8002 && Quadrant2(w).op != ERROR && (w >> 12) & 1 != 1
    ensures Registers(Quadrant2(w), w) || Jumps(Quadrant2(w), w, mxl)
  {
    hide AsmCLwType, AsmCLdType, AsmCLwsp, AsmCLdsp, AsmCSwsp, AsmCSdsp, AsmCAddiType, AsmCAddi4spn, AsmCAddi16sp, AsmCLui, AsmCAndiType, AsmCAndType, AsmCAddType, AsmCSlli, AsmCJType, AsmCBType;
    hide WordOffset, DoubleOffset, LwspImm, LdspImm, SwspImm, SdspImm, Imm6, Reg2, Reg7;
    FormBits(w);
    SelectorFour(w);
    AddBits(w);
    AddTypeWord(w, 0x8002);
  }

  lemma SelectorFour(w: bv32)
    requires w <= 0xFFFF && w & 0xE003 == 0x8002
    ensures Selector(w) == 4 && ((w >> 12) & 1 == 0 || (w >> 12) & 1 == 1)
  {}

  lemma Decoded2(w: bv32, mxl: int)
    requires w <= 0xFFFF && Quadrant(w) == 2 && GetCode16(w, mxl).op != ERROR
    ensures Encodes(GetCode16(w, mxl), w, mxl)
  {
    hide WordOffset, DoubleOffset, LwspImm, LdspImm, SwspImm, SdspImm, Imm6, SignedImm6, Addi4spnImm, Addi16spImm, LuiImm, JumpOffset, BranchOffset, Short2, Short7, Reg2, Reg7;
    hide Loads, Stores, Immediates, Jumps, Registers;
    FormBits(w);
    var f := Selector(w);
    AnyWidth(GetCode16(w, mxl), w, mxl);
    if f == 4 { hide Quadrant2; WordIsAddType(w, mxl); }
    else { TwoOthers(w, f); }
  }

  lemma TwoOthers(w: bv32, f: bv32)
    requires w <= 0xFFFF && Quadrant(w) == 2 && f == Selector(w) && f != 4 && Quadrant2(w).op != ERROR
    ensures Loads(Quadrant2(w), w) || Stores(Quadrant2(w), w) || (Immediates(Quadrant2(w), w, 0) && Quadrant2(w).op != ADDIW)
  {
    hide WordOffset, DoubleOffset, LwspImm, LdspImm, SwspImm, SdspImm, Imm6, SignedImm6, Addi4spnImm, Addi16spImm, LuiImm, JumpOffset, BranchOffset, Short2, Short7, Reg2, Reg7;
    hide Loads, Stores, Immediates, Jumps, Registers;
    FormBits(w);
    if f == 0 { WordIsSlli(w); }
    else if f == 2 { WordIsLwsp(w); }
    else if f == 3 { WordIsLdsp(w); }
    else if f == 6 { WordIsSwsp(w); }
    else { WordIsSdsp(w); }
  }

  /**
    For every 16-bit word and every instruction: the decoder takes the word for the instruction exactly
    when the word is a compressed encoding of it. Words that are none are refused.
   */
  lemma DecodesExactly(d: Decoded, w: bv32, mxl: int)
    requires w <= 0xFFFF && d.op != ERROR
    ensures GetCode16(w, mxl) == d <==> Encodes(d, w, mxl)
  {
    hide GetCode16, Loads, Stores, Immediates, Registers, Jumps;
    if Encodes(d, w, mxl) {
      if Loads(d, w) { LoadDecodes(d, w, mxl); }
      else if Stores(d, w) { StoreDecodes(d, w, mxl); }
      else if Immediates(d, w, mxl) { ImmediateDecodes(d, w, mxl); }
      else if Registers(d, w) { RegisterDecodes(d, w, mxl); }
      else { JumpDecodes(d, w, mxl); }
    }
    if GetCode16(w, mxl) == d {
      FormBits(w);
      if Quadrant(w) == 0 { Decoded0(w, mxl); }
      else if Quadrant(w) == 1 { Decoded1(w, mxl); }
      else if Quadrant(w) == 2 { Decoded2(w, mxl); }
      else { LongWord(w, mxl); }
    }
  }

  lemma LongWord(w: bv32, mxl: int)
    requires Quadrant(w) == 3
    ensures GetCode16(w, mxl).op == ERROR
  {}

  lemma ImmediateDecodes(d: Decoded, w: bv32, mxl: int)
    requires Immediates(d, w, mxl)
    ensures GetCode16(w, mxl) == d
  {
    hide GetCode16;
    if d.op in {ADDI, ADDIW, LUI} { AddiDecodes(d, w, mxl); } else { ImmediateOps(d, w, mxl); ShiftDecodes(d, w, mxl); }
  }

  lemma ImmediateOps(d: Decoded, w: bv32, mxl: int)
    requires Immediates(d, w, mxl)
    ensures d.op in {ADDI, ADDIW, LUI, ANDI, SRLI, SRAI, SLLI}
  {
    hide AsmCAddiType, AsmCAddi4spn, AsmCAddi16sp, AsmCLui, AsmCAndiType, AsmCSlli;
  }

  // ----- the encoder that loses its register -----

  /** Assembling and decoding C.LUI gives the instruction back exactly when its register is x0. */
  lemma CompressedLui(rd: bv5, imm: bv32, mxl: int)
    requires LuiImmediate(imm)
    ensures GetCode16(AsmCLui(rd, imm), mxl) == Decoded(LUI, rd, 0, 0, imm) <==> rd == 0
  {
    hide GetCode16;
    NoRegister(rd, imm);
    DecodesExactly(Decoded(LUI, 0, 0, 0, imm), AsmCLui(rd, imm), mxl);
  }

  lemma NoRegister(rd: bv5, imm: bv32)
    ensures AsmCLui(rd, imm) <= 0xFFFF && AsmCLui(rd, imm) == AsmCLui(0, imm) | (Reg(0) << 7)
  {}
}
