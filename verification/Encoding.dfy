/**
  The instruction formats (instruction_encdec.cc). Each class holds the bit fields of one format;
  `SetValue` takes a word apart and `GetValue` puts it together again.
 */
module Encoding {

  // `SignExtend(x, width)` of bit_tools.h, one function for each width that is used.
  function SignExtend6(x: bv32): bv32 { if (x >> 5) & 1 == 1 then x | 0xFFFFFFC0 else x & 0x3F }

  function SignExtend9(x: bv32): bv32 { if (x >> 8) & 1 == 1 then x | 0xFFFFFE00 else x & 0x1FF }

  function SignExtend10(x: bv32): bv32 { if (x >> 9) & 1 == 1 then x | 0xFFFFFC00 else x & 0x3FF }

  function SignExtend12(x: bv32): bv32 { if (x >> 11) & 1 == 1 then x | 0xFFFFF000 else x & 0xFFF }

  function SignExtend13(x: bv32): bv32 { if (x >> 12) & 1 == 1 then x | 0xFFFFE000 else x & 0x1FFF }

  function SignExtend18(x: bv32): bv32 { if (x >> 17) & 1 == 1 then x | 0xFFFC0000 else x & 0x3FFFF }

  function SignExtend20(x: bv32): bv32 { if (x >> 19) & 1 == 1 then x | 0xFFF00000 else x & 0xFFFFF }

  function SignExtend21(x: bv32): bv32 { if (x >> 20) & 1 == 1 then x | 0xFFE00000 else x & 0x1FFFFF }

  const OPCODE_ARITHLOG: bv7 := 0x33
  const OPCODE_ARITHLOG_64: bv7 := 0x3B
  const OPCODE_ARITHLOG_I: bv7 := 0x13
  const OPCODE_ARITHLOG_I64: bv7 := 0x1B
  const OPCODE_B: bv7 := 0x63
  const OPCODE_LD: bv7 := 0x03
  const OPCODE_J: bv7 := 0x6F
  const OPCODE_S: bv7 := 0x23
  const OPCODE_JALR: bv7 := 0x67
  const OPCODE_LUI: bv7 := 0x37
  const OPCODE_AUIPC: bv7 := 0x17
  const OPCODE_SYSTEM: bv7 := 0x73
  const OPCODE_FENCE: bv7 := 0x0F
  const OPCODE_AMO: bv7 := 0x2F

  function GetOpcode(ir: bv32): bv7 { (ir & 0x7F) as bv7 }
  function GetRd(ir: bv32): bv5 { ((ir >> 7) & 0x1F) as bv5 }
  function GetFunct3(ir: bv32): bv3 { ((ir >> 12) & 7) as bv3 }
  function GetRs1(ir: bv32): bv5 { ((ir >> 15) & 0x1F) as bv5 }
  function GetRs2(ir: bv32): bv5 { ((ir >> 20) & 0x1F) as bv5 }
  function GetFunct7(ir: bv32): bv7 { ((ir >> 25) & 0x7F) as bv7 }

  function GetCsr(ir: bv32): bv12 { ((ir >> 20) & 0xFFF) as bv12 }

  // The immediate fields before sign extension.
  function Raw12(ir: bv32): bv32 { (ir >> 20) & 0xFFF }

  function RawStore(ir: bv32): bv32 { (((ir >> 25) & 0x7F) << 5) | ((ir >> 7) & 0x1F) }

  function Raw13(ir: bv32): bv32
  {
    (((ir >> 31) & 1) << 12) | (((ir >> 25) & 0x3F) << 5) | (((ir >> 8) & 0xF) << 1) | (((ir >> 7) & 1) << 11)
  }

  function Raw20(ir: bv32): bv32 { (ir >> 12) & 0xF_FFFF }

  function Raw21(ir: bv32): bv32
  {
    (((ir >> 31) & 1) << 20) | (((ir >> 12) & 0xFF) << 12) | (((ir >> 20) & 1) << 11) | (((ir >> 21) & 0x3FF) << 1)
  }

  function GetImm12(ir: bv32): bv32 { SignExtend12(Raw12(ir)) }

  function GetStypeImm12(ir: bv32): bv32 { SignExtend12(RawStore(ir)) }

  function GetImm13(ir: bv32): bv32 { SignExtend13(Raw13(ir)) }

  function GetImm20(ir: bv32): bv32 { SignExtend20(Raw20(ir)) }

  function GetImm21(ir: bv32): bv32 { SignExtend21(Raw21(ir)) }

  predicate IsShift(opcode: bv7, funct3: bv3)
  {
    (opcode == OPCODE_ARITHLOG_I || opcode == OPCODE_ARITHLOG_I64) && (funct3 == 1 || funct3 == 5)
  }

  /** The immediate operand, chosen by the opcode. */
  function GetImm(ir: bv32): bv32
  {
    var opcode := GetOpcode(ir);
    if IsShift(opcode, GetFunct3(ir)) then GetImm12(ir) & 0x3F
    else if opcode == OPCODE_B then GetImm13(ir)
    else if opcode == OPCODE_LUI || opcode == OPCODE_AUIPC then GetImm20(ir) << 12
    else if opcode == OPCODE_J then GetImm21(ir)
    else if opcode == OPCODE_S then GetStypeImm12(ir)
    else GetImm12(ir)
  }

  // ----- words put together from fields -----

  function RWord(funct7: bv7, rs2: bv5, rs1: bv5, funct3: bv3, rd: bv5, opcode: bv7): bv32
  {
    ((funct7 as bv32) << 25) | ((rs2 as bv32) << 20) | ((rs1 as bv32) << 15)
    | ((funct3 as bv32) << 12) | ((rd as bv32) << 7) | (opcode as bv32)
  }

  function IWord(imm12: bv12, rs1: bv5, funct3: bv3, rd: bv5, opcode: bv7): bv32
  {
    ((imm12 as bv32) << 20) | ((rs1 as bv32) << 15) | ((funct3 as bv32) << 12) | ((rd as bv32) << 7) | (opcode as bv32)
  }

  function SWord(imm12: bv12, rs2: bv5, rs1: bv5, funct3: bv3, opcode: bv7): bv32
  {
    var imm := imm12 as bv32;
    (((imm >> 5) & 0x7F) << 25) | ((rs2 as bv32) << 20) | ((rs1 as bv32) << 15)
    | ((funct3 as bv32) << 12) | ((imm & 0x1F) << 7) | (opcode as bv32)
  }

  function BWord(imm13: bv13, rs2: bv5, rs1: bv5, funct3: bv3, opcode: bv7): bv32
  {
    var imm := imm13 as bv32;
    (((imm >> 12) & 1) << 31) | (((imm >> 5) & 0x3F) << 25) | ((rs2 as bv32) << 20) | ((rs1 as bv32) << 15)
    | ((funct3 as bv32) << 12) | (((imm >> 1) & 0xF) << 8) | (((imm >> 11) & 1) << 7) | (opcode as bv32)
  }

  function UWord(imm20: bv24, rd: bv5, opcode: bv7): bv32
  {
    (((imm20 as bv32) & 0xF_FFFF) << 12) | ((rd as bv32) << 7) | (opcode as bv32)
  }

  function JWord(imm21: bv21, rd: bv5, opcode: bv7): bv32
  {
    var imm := imm21 as bv32;
    (((imm >> 20) & 1) << 31) | (((imm >> 1) & 0x3FF) << 21) | (((imm >> 11) & 1) << 20) | (((imm >> 12) & 0xFF) << 12)
    | ((rd as bv32) << 7) | (opcode as bv32)
  }

  // Cutting a sign-extended field to its width gives the field back.

  lemma Low12(x: bv32)
    ensures SignExtend12(x) & 0xFFF == x & 0xFFF
  {
    if (x >> 11) & 1 == 1 {} else {}
  }

  lemma Low13(x: bv32)
    ensures SignExtend13(x) & 0x1FFF == x & 0x1FFF
  {
    if (x >> 12) & 1 == 1 {} else {}
  }

  lemma Low20(x: bv32)
    ensures SignExtend20(x) & 0xFFFFF == x & 0xFFFFF
  {
    if (x >> 19) & 1 == 1 {} else {}
  }

  lemma Low21(x: bv32)
    ensures SignExtend21(x) & 0x1FFFFF == x & 0x1FFFFF
  {
    if (x >> 20) & 1 == 1 {} else {}
  }

  // The fields of a word, put together again, give the word.

  lemma JoinI(v: bv32)
    ensures IWord((Raw12(v) & 0xFFF) as bv12, GetRs1(v), GetFunct3(v), GetRd(v), GetOpcode(v)) == v
    ensures IWord((Raw12(v) & 0xFFF) as bv12 & 0x3F, GetRs1(v), GetFunct3(v), GetRd(v), GetOpcode(v)) == v & 0x03FF_FFFF
  {}

  lemma JoinS(v: bv32)
    ensures SWord((RawStore(v) & 0xFFF) as bv12, GetRs2(v), GetRs1(v), GetFunct3(v), GetOpcode(v)) == v
  {}

  lemma JoinB(v: bv32)
    ensures BWord((Raw13(v) & 0x1FFF) as bv13, GetRs2(v), GetRs1(v), GetFunct3(v), GetOpcode(v)) == v
  {}

  lemma JoinU(v: bv32, imm: bv32)
    requires imm & 0xF_FFFF == Raw20(v) & 0xF_FFFF
    ensures UWord((imm & 0xFF_FFFF) as bv24, GetRd(v), GetOpcode(v)) == v
  {}

  lemma JoinJ(v: bv32)
    ensures JWord((Raw21(v) & 0x1F_FFFF) as bv21, GetRd(v), GetOpcode(v)) == v
  {}

  class RType {
    var opcode: bv7, rd: bv5, rs2: bv5, rs1: bv5, funct3: bv3, funct7: bv7

    function GetValue(): bv32 reads this { RWord(funct7, rs2, rs1, funct3, rd, opcode) }

    method SetValue(value: bv32)
      modifies this
      ensures GetValue() == value
    {
      funct7 := GetFunct7(value);
      rs2 := GetRs2(value);
      rs1 := GetRs1(value);
      funct3 := GetFunct3(value);
      rd := GetRd(value);
      opcode := GetOpcode(value);
    }
  }

  class IType {
    var opcode: bv7, rd: bv5, rs1: bv5, funct3: bv3, imm12: bv12

    function GetValue(): bv32 reads this { IWord(imm12, rs1, funct3, rd, opcode) }

    /** The upper immediate bits of the shift instructions, which tell SRAI from SRLI, are lost. */
    method SetValue(value: bv32)
      modifies this
      ensures GetValue() == if IsShift(GetOpcode(value), GetFunct3(value)) then value & 0x03FF_FFFF else value
    {
      hide SignExtend12, Raw12, IWord, GetRs1, GetFunct3, GetRd, GetOpcode;
      Low12(Raw12(value));
      JoinI(value);
      opcode := GetOpcode(value);
      funct3 := GetFunct3(value);
      imm12 := (GetImm12(value) & 0xFFF) as bv12;
      if (opcode == OPCODE_ARITHLOG_I || opcode == OPCODE_ARITHLOG_I64) && (funct3 == 5 || funct3 == 1) {
        imm12 := imm12 & 0x3F;
      }
      rs1 := GetRs1(value);
      rd := GetRd(value);
    }
  }

  class SType {
    var opcode: bv7, rs2: bv5, rs1: bv5, funct3: bv3, imm12: bv12

    function GetValue(): bv32 reads this { SWord(imm12, rs2, rs1, funct3, opcode) }

    method SetValue(value: bv32)
      modifies this
      ensures GetValue() == value
    {
      hide SignExtend12, RawStore, SWord, GetRs1, GetRs2, GetFunct3, GetOpcode;
      Low12(RawStore(value));
      JoinS(value);
      rs2 := GetRs2(value);
      rs1 := GetRs1(value);
      funct3 := GetFunct3(value);
      opcode := GetOpcode(value);
      imm12 := (GetStypeImm12(value) & 0xFFF) as bv12;
    }
  }

  class BType {
    var opcode: bv7, rs2: bv5, rs1: bv5, funct3: bv3, imm13: bv13

    function GetValue(): bv32 reads this { BWord(imm13, rs2, rs1, funct3, opcode) }

    method SetValue(value: bv32)
      modifies this
      ensures GetValue() == value
    {
      hide SignExtend13, Raw13, BWord, GetRs1, GetRs2, GetFunct3, GetOpcode;
      Low13(Raw13(value));
      JoinB(value);
      rs2 := GetRs2(value);
      rs1 := GetRs1(value);
      funct3 := GetFunct3(value);
      opcode := GetOpcode(value);
      imm13 := (GetImm13(value) & 0x1FFF) as bv13;
    }
  }

  class UType {
    var opcode: bv7, rd: bv5, imm20: bv24

    function GetValue(): bv32 reads this { UWord(imm20, rd, opcode) }

    method SetValue(value: bv32)
      modifies this
      ensures GetValue() == value
    {
      hide SignExtend20, Raw20, UWord, GetRd, GetOpcode;
      Low20(Raw20(value));
      JoinU(value, GetImm20(value));
      imm20 := (GetImm20(value) & 0xFF_FFFF) as bv24;
      rd := GetRd(value);
      opcode := GetOpcode(value);
    }
  }

  class JType {
    var opcode: bv7, rd: bv5, imm21: bv21

    function GetValue(): bv32 reads this { JWord(imm21, rd, opcode) }

    method SetValue(value: bv32)
      modifies this
      ensures GetValue() == value
    {
      hide SignExtend21, Raw21, JWord, GetRd, GetOpcode;
      Low21(Raw21(value));
      JoinJ(value);
      imm21 := (GetImm21(value) & 0x1F_FFFF) as bv21;
      rd := GetRd(value);
      opcode := GetOpcode(value);
    }
  }

  // ----- fields of words put together -----

  // An immediate cut to the width of its field, and a field extended to an immediate.
  function Cut12(imm: bv32): bv12 { (imm & 0xFFF) as bv12 }

  function Cut13(imm: bv32): bv13 { (imm & 0x1FFF) as bv13 }

  function Cut20(imm: bv32): bv24 { (imm >> 12) as bv24 }

  function Cut21(imm: bv32): bv21 { (imm & 0x1F_FFFF) as bv21 }

  function Extend12(field: bv12): bv32 { SignExtend12(field as bv32) }

  function Extend13(field: bv13): bv32 { SignExtend13((field as bv32) & !1) }

  function Extend20(field: bv24): bv32 { SignExtend20((field as bv32) & 0xF_FFFF) << 12 }

  function Extend21(field: bv21): bv32 { SignExtend21((field as bv32) & !1) }

  lemma RFields(funct7: bv7, rs2: bv5, rs1: bv5, funct3: bv3, rd: bv5, opcode: bv7)
    ensures var w := RWord(funct7, rs2, rs1, funct3, rd, opcode);
      && GetOpcode(w) == opcode && GetRd(w) == rd && GetFunct3(w) == funct3
      && GetRs1(w) == rs1 && GetRs2(w) == rs2 && GetFunct7(w) == funct7
  {}

  lemma IFields(imm12: bv12, rs1: bv5, funct3: bv3, rd: bv5, opcode: bv7)
    ensures var w := IWord(imm12, rs1, funct3, rd, opcode);
      && GetOpcode(w) == opcode && GetRd(w) == rd && GetFunct3(w) == funct3 && GetRs1(w) == rs1
      && GetImm12(w) == Extend12(imm12) && GetCsr(w) == imm12
  {}

  lemma SFields(imm12: bv12, rs2: bv5, rs1: bv5, funct3: bv3, opcode: bv7)
    ensures var w := SWord(imm12, rs2, rs1, funct3, opcode);
      && GetOpcode(w) == opcode && GetFunct3(w) == funct3 && GetRs1(w) == rs1 && GetRs2(w) == rs2
      && GetStypeImm12(w) == Extend12(imm12)
  {}

  lemma BFields(imm13: bv13, rs2: bv5, rs1: bv5, funct3: bv3, opcode: bv7)
    ensures var w := BWord(imm13, rs2, rs1, funct3, opcode);
      && GetOpcode(w) == opcode && GetFunct3(w) == funct3 && GetRs1(w) == rs1 && GetRs2(w) == rs2
      && GetImm13(w) == Extend13(imm13)
  {}

  lemma UFields(imm20: bv24, rd: bv5, opcode: bv7)
    ensures var w := UWord(imm20, rd, opcode);
      && GetOpcode(w) == opcode && GetRd(w) == rd && GetImm20(w) << 12 == Extend20(imm20)
  {}

  lemma JFields(imm21: bv21, rd: bv5, opcode: bv7)
    ensures var w := JWord(imm21, rd, opcode);
      && GetOpcode(w) == opcode && GetRd(w) == rd && GetImm21(w) == Extend21(imm21)
  {}
}
