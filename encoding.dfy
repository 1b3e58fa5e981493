/** The 32-bit encoder and the validating decoder (src/isa/encoding.rs).

    Word layout, most significant bit first: the opcode in bits 31:26; in
    register-register words rd in 25:22, rs1 in 21:18, rs2 in 17:14 and the
    function code in 13:0; in register-immediate words the same three
    register slots and a 16-bit immediate in 15:0, so that bits 15:14 belong
    to both the rs2 slot and the immediate; in jump words a 26-bit offset in
    25:0. */
module Encoding {
  import opened TwosComplement
  import opened Wrappers
  import opened Instructions

  // The layout constants of the source appear as literals in the bit
  // expressions below, where the solver needs constant shift amounts:
  // OPCODE_SHIFT = 26, OPCODE_MASK = 0x3F, RD_SHIFT = 22, RS1_SHIFT = 18,
  // RS2_SHIFT = 14, REG_MASK = 0x0F, FUNCT_MASK = 0x3FFF,
  // IMM16_MASK = 0xFFFF, IMM26_MASK = 0x03FF_FFFF.

  const FUNCT_ADD: uint16 := 0x0001
  const FUNCT_SUB: uint16 := 0x0002
  const FUNCT_AND: uint16 := 0x0003
  const FUNCT_OR: uint16 := 0x0004
  const FUNCT_XOR: uint16 := 0x0005
  const FUNCT_SHL: uint16 := 0x0006
  const FUNCT_SHR: uint16 := 0x0007

  /** The register slots an error can name (the source's "rd", "rs1", "rs2"). */
  datatype Field = Rd | Rs1 | Rs2

  datatype DecodeError =
    | ReservedOpcode(opcode: uint8)
    | ReservedFunct(funct: uint16)
    | ReservedField(field: Field, value: uint32)
    | InvalidRegister(field: Field, raw: uint8)

  // Views of the word's fields, used to state the contracts.

  ghost function OpcodeBits(word: uint32): uint32 { (word >> 26) & 0x3F }
  ghost function RdBits(word: uint32): uint32 { (word >> 22) & 0xF }
  ghost function Rs1Bits(word: uint32): uint32 { (word >> 18) & 0xF }
  ghost function Rs2Bits(word: uint32): uint32 { (word >> 14) & 0xF }
  ghost function FunctBits(word: uint32): uint32 { word & 0x3FFF }
  ghost function Imm16Bits(word: uint32): uint32 { word & 0xFFFF }
  ghost function Imm26Bits(word: uint32): uint32 { word & 0x03FF_FFFF }

  /** The opcode of the family an instruction belongs to. */
  ghost function OpcodeOf(instr: Instr): Opcode {
    match instr
    case Add(_, _, _) => Opcode.RType
    case Sub(_, _, _) => Opcode.RType
    case And(_, _, _) => Opcode.RType
    case Or(_, _, _) => Opcode.RType
    case Xor(_, _, _) => Opcode.RType
    case Shl(_, _, _) => Opcode.RType
    case Shr(_, _, _) => Opcode.RType
    case Addi(_, _, _) => Opcode.Addi
    case Ld(_, _, _) => Opcode.Ld
    case St(_, _, _) => Opcode.St
    case Beq(_, _, _) => Opcode.Beq
    case Bne(_, _, _) => Opcode.Bne
    case Blt(_, _, _) => Opcode.Blt
    case Bge(_, _, _) => Opcode.Bge
    case Jal(_) => Opcode.Jal
    case Jmp(_) => Opcode.Jmp
    case Ecall(_) => Opcode.Ecall
  }

  /** The function code of a register-register instruction. */
  ghost function FunctOf(instr: Instr): uint16
    requires instr.IsRType()
  {
    match instr
    case Add(_, _, _) => FUNCT_ADD
    case Sub(_, _, _) => FUNCT_SUB
    case And(_, _, _) => FUNCT_AND
    case Or(_, _, _) => FUNCT_OR
    case Xor(_, _, _) => FUNCT_XOR
    case Shl(_, _, _) => FUNCT_SHL
    case Shr(_, _, _) => FUNCT_SHR
  }

  /** The branch opcodes. */
  predicate IsBranchOpcode(opcode: Opcode) {
    opcode == Opcode.Beq || opcode == Opcode.Bne || opcode == Opcode.Blt || opcode == Opcode.Bge
  }

  /** Whether a jump offset fits the signed 26-bit field: exactly when
      keeping its low 26 bits and reading them as a signed number gives it
      back. */
  predicate FitsI26(value: int32): (fits: bool)
    ensures fits <==> value == Signed26(value % 0x400_0000)
  {
    var limit := 0x200_0000; // 1 << 25
    value >= -limit && value < limit
  }

  /** A 26-bit field read as a two's-complement number. */
  function Signed26(v: int): int
    requires 0 <= v < 0x400_0000
  {
    if v < 0x200_0000 then v else v - 0x400_0000
  }

  /** The instructions the encoder is meant for: every jump offset fits 26
      bits, which the source checks only with a debug assertion. */
  predicate Encodable(instr: Instr) {
    (instr.Jal? || instr.Jmp?) ==> FitsI26(instr.jumpOffset)
  }

  function Encode(instr: Instr): (word: uint32)
    requires Encodable(instr)
    ensures instr.IsRType() ==> FunctBits(word) == FunctOf(instr) as uint32
  {
    match instr
    case Add(rd, rs1, rs2) => EncodeR(rd, rs1, rs2, FUNCT_ADD)
    case Sub(rd, rs1, rs2) => EncodeR(rd, rs1, rs2, FUNCT_SUB)
    case And(rd, rs1, rs2) => EncodeR(rd, rs1, rs2, FUNCT_AND)
    case Or(rd, rs1, rs2) => EncodeR(rd, rs1, rs2, FUNCT_OR)
    case Xor(rd, rs1, rs2) => EncodeR(rd, rs1, rs2, FUNCT_XOR)
    case Shl(rd, rs1, rs2) => EncodeR(rd, rs1, rs2, FUNCT_SHL)
    case Shr(rd, rs1, rs2) => EncodeR(rd, rs1, rs2, FUNCT_SHR)
    case Addi(rd, rs1, imm) => EncodeI(Opcode.Addi, rd, rs1, R0, imm)
    case Ld(rd, base, offset) => EncodeI(Opcode.Ld, rd, base, R0, offset)
    case St(rs, base, offset) => EncodeI(Opcode.St, rs, base, R0, offset)
    case Beq(rs1, rs2, offset) => EncodeI(Opcode.Beq, R0, rs1, rs2, offset)
    case Bne(rs1, rs2, offset) => EncodeI(Opcode.Bne, R0, rs1, rs2, offset)
    case Blt(rs1, rs2, offset) => EncodeI(Opcode.Blt, R0, rs1, rs2, offset)
    case Bge(rs1, rs2, offset) => EncodeI(Opcode.Bge, R0, rs1, rs2, offset)
    case Jal(offset) => EncodeJ(Opcode.Jal, offset)
    case Jmp(offset) => EncodeJ(Opcode.Jmp, offset)
    case Ecall(imm) => EncodeI(Opcode.Ecall, R0, R0, R0, imm)
  }

  /** A register-register word: the five fields occupy disjoint bits, so each
      reads back as written. */
  function EncodeR(rd: Register, rs1: Register, rs2: Register, funct: uint16): (word: uint32)
    ensures OpcodeBits(word) == Opcode.RType.Value() as uint32
    ensures RdBits(word) == rd.Index() as uint32
    ensures Rs1Bits(word) == rs1.Index() as uint32
    ensures Rs2Bits(word) == rs2.Index() as uint32
    ensures FunctBits(word) == funct as uint32 & 0x3FFF
  {
    var opcode := Opcode.RType.Value() as uint32;
    (opcode << 26)
    | ((rd.Index() as uint32) << 22)
    | ((rs1.Index() as uint32) << 18)
    | ((rs2.Index() as uint32) << 14)
    | (funct as uint32 & 0x3FFF)
  }

  /** A register-immediate word. The opcode, rd and rs1 slots read back as
      written; the rs2 slot and the immediate, which share bits 15:14, are
      the subject of `EncodeIRs2` and `EncodeIImm`. */
  function EncodeI(opcode: Opcode, rd: Register, rs1: Register, rs2: Register, imm: int16): (word: uint32)
    ensures OpcodeBits(word) == opcode.Value() as uint32
    ensures RdBits(word) == rd.Index() as uint32
    ensures Rs1Bits(word) == rs1.Index() as uint32
  {
    var op := opcode.Value() as uint32;
    var immBits := I16ToU16(imm) as uint32;
    var r1, r2, r3 := rd.Index() as uint32, rs1.Index() as uint32, rs2.Index() as uint32;
    IWordOpcode(op, r1, r2, r3, immBits);
    IWordRd(op, r1, r2, r3, immBits);
    IWordRs1(op, r1, r2, r3, immBits);
    (op << 26) | (r1 << 22) | (r2 << 18) | (r3 << 14) | (immBits & 0xFFFF)
  }

  /** The rs2 slot of a register-immediate word reads back ORed with the top
      two bits of the immediate. */
  lemma EncodeIRs2(opcode: Opcode, rd: Register, rs1: Register, rs2: Register, imm: int16)
    ensures Rs2Bits(EncodeI(opcode, rd, rs1, rs2, imm))
            == rs2.Index() as uint32 | (I16ToU16(imm) as uint32 >> 14)
  {
    IWordRs2(opcode.Value() as uint32, rd.Index() as uint32, rs1.Index() as uint32,
             rs2.Index() as uint32, I16ToU16(imm) as uint32);
  }

  /** The immediate of a register-immediate word reads back with bits 15:14
      ORed with the low two bits of rs2. */
  lemma EncodeIImm(opcode: Opcode, rd: Register, rs1: Register, rs2: Register, imm: int16)
    ensures Imm16Bits(EncodeI(opcode, rd, rs1, rs2, imm))
            == I16ToU16(imm) as uint32 | ((rs2.Index() as uint32 & 3) << 14)
  {
    IWordImm(opcode.Value() as uint32, rd.Index() as uint32, rs1.Index() as uint32,
             rs2.Index() as uint32, I16ToU16(imm) as uint32);
  }

  // The fields of a register-immediate word over plain bit-vectors, one
  // lemma per field so that each is a small bit-vector problem.

  lemma IWordOpcode(op: uint32, rd: uint32, rs1: uint32, rs2: uint32, imm: uint32)
    requires op < 64 && rd < 16 && rs1 < 16 && rs2 < 16 && imm < 0x1_0000
    ensures OpcodeBits((op << 26) | (rd << 22) | (rs1 << 18) | (rs2 << 14) | (imm & 0xFFFF)) == op
  {
  }

  lemma IWordRd(op: uint32, rd: uint32, rs1: uint32, rs2: uint32, imm: uint32)
    requires op < 64 && rd < 16 && rs1 < 16 && rs2 < 16 && imm < 0x1_0000
    ensures RdBits((op << 26) | (rd << 22) | (rs1 << 18) | (rs2 << 14) | (imm & 0xFFFF)) == rd
  {
  }

  lemma IWordRs1(op: uint32, rd: uint32, rs1: uint32, rs2: uint32, imm: uint32)
    requires op < 64 && rd < 16 && rs1 < 16 && rs2 < 16 && imm < 0x1_0000
    ensures Rs1Bits((op << 26) | (rd << 22) | (rs1 << 18) | (rs2 << 14) | (imm & 0xFFFF)) == rs1
  {
  }

  lemma IWordRs2(op: uint32, rd: uint32, rs1: uint32, rs2: uint32, imm: uint32)
    requires op < 64 && rd < 16 && rs1 < 16 && rs2 < 16 && imm < 0x1_0000
    ensures Rs2Bits((op << 26) | (rd << 22) | (rs1 << 18) | (rs2 << 14) | (imm & 0xFFFF)) == rs2 | (imm >> 14)
  {
  }

  lemma IWordImm(op: uint32, rd: uint32, rs1: uint32, rs2: uint32, imm: uint32)
    requires op < 64 && rd < 16 && rs1 < 16 && rs2 < 16 && imm < 0x1_0000
    ensures Imm16Bits((op << 26) | (rd << 22) | (rs1 << 18) | (rs2 << 14) | (imm & 0xFFFF)) == imm | ((rs2 & 3) << 14)
  {
  }

  /** A jump word: the opcode, and the offset modulo 2^26 in the low bits. */
  function EncodeJ(opcode: Opcode, imm: int32): (word: uint32)
    requires FitsI26(imm)
    ensures OpcodeBits(word) == opcode.Value() as uint32
    ensures Imm26Bits(word) as int == imm % 0x400_0000
  {
    var op := opcode.Value() as uint32;
    var immBits := I32ToU32(imm) & 0x03FF_FFFF;
    var word := (op << 26) | immBits;
    assert OpcodeBits(word) == op && Imm26Bits(word) == immBits by {
      JWordFields(op, immBits);
    }
    assert immBits as int == imm % 0x400_0000 by {
      LowBits26(I32ToU32(imm));
      ModOfMod(imm);
    }
    word
  }

  lemma JWordFields(op: uint32, imm: uint32)
    requires op < 64 && imm < 0x400_0000
    ensures OpcodeBits((op << 26) | imm) == op
    ensures Imm26Bits((op << 26) | imm) == imm
  {
  }

  /** Reducing modulo 2^32 and then modulo 2^26 is reducing modulo 2^26. */
  lemma ModOfMod(x: int)
    ensures (x % 0x1_0000_0000) % 0x400_0000 == x % 0x400_0000
  {
  }

  /** Masking a word to 26 bits takes its value modulo 2^26. */
  lemma LowBits26(b: uint32)
    ensures (b & 0x03FF_FFFF) as int == b as int % 0x400_0000
  {
    var hi, lo := (b >> 26) as bv6, (b & 0x03FF_FFFF) as bv26;
    var value, h, l, masked := b as int, hi as int, lo as int, (b & 0x03FF_FFFF) as int;
    assert value == h * 0x400_0000 + l by {
      Rejoin26(b);
      SplitValue(hi, lo);
    }
    assert masked == l by {
      Narrow26(b & 0x03FF_FFFF);
    }
    assert 0 <= h && 0 <= l < 0x400_0000;
    PlaceValueMod(value, h, l, masked);
  }

  /** A word has the value of its top six bits joined to its low 26 bits. */
  lemma Rejoin26(b: uint32)
    ensures b as int == (((((b >> 26) as bv6) as uint32) << 26) | (((b & 0x03FF_FFFF) as bv26) as uint32)) as int
  {
    assert b == ((((b >> 26) as bv6) as uint32) << 26) | (((b & 0x03FF_FFFF) as bv26) as uint32);
  }

  /** A word below 2^26 keeps its value when narrowed to 26 bits. */
  lemma Narrow26(b: uint32)
    requires b < 0x400_0000
    ensures (b as bv26) as int == b as int
  {
  }

  /** A 6-bit high part and a 26-bit low part, joined, have the value of the
      place-value sum. */
  lemma SplitValue(hi: bv6, lo: bv26)
    ensures (((hi as uint32) << 26) | (lo as uint32)) as int == hi as int * 0x400_0000 + lo as int
  {
  }

  lemma PlaceValueMod(value: int, h: int, l: int, masked: int)
    requires value == h * 0x400_0000 + l && 0 <= h && 0 <= l < 0x400_0000 && masked == l
    ensures masked == value % 0x400_0000
  {
  }

  function Decode(word: uint32): (r: Result<Instr, DecodeError>)
    ensures OpcodeBits(word) > 0x0A <==> r == Err(ReservedOpcode(OpcodeBits(word) as uint8))
    ensures !(r.Err? && r.error.InvalidRegister?)
    ensures r.Ok? ==> OpcodeOf(r.value).Value() as uint32 == OpcodeBits(word)
  {
    var opcodeRaw := ((word >> 26) & 0x3F) as uint8;
    match Opcode.FromU8(opcodeRaw)
    case None => Err(ReservedOpcode(opcodeRaw))
    case Some(opcode) =>
    match opcode
    case RType => DecodeR(word)
    case Addi => DecodeIAddi(word)
    case Ld => DecodeILd(word)
    case St => DecodeISt(word)
    case Beq => DecodeIBranch(word, Opcode.Beq)
    case Bne => DecodeIBranch(word, Opcode.Bne)
    case Blt => DecodeIBranch(word, Opcode.Blt)
    case Bge => DecodeIBranch(word, Opcode.Bge)
    case Jal => DecodeJ(word, Opcode.Jal)
    case Jmp => DecodeJ(word, Opcode.Jmp)
    case Ecall => DecodeIEcall(word)
  }

  /** A register-register word decodes exactly when its function code is one
      of the seven assigned ones. */
  function DecodeR(word: uint32): (r: Result<Instr, DecodeError>)
    ensures r.Ok? <==> 1 <= FunctBits(word) <= 7
    ensures r.Err? ==> r.error == ReservedFunct(FunctBits(word) as uint16)
    ensures r.Ok? ==> r.value.IsRType() && OpcodeOf(r.value) == Opcode.RType
    ensures r.Ok? ==> FunctOf(r.value) as uint32 == FunctBits(word)
    ensures r.Ok? ==> r.value.rd.Index() as uint32 == RdBits(word)
    ensures r.Ok? ==> r.value.rs1.Index() as uint32 == Rs1Bits(word)
    ensures r.Ok? ==> r.value.rs2.Index() as uint32 == Rs2Bits(word)
  {
    match DecodeReg(word, 22, Rd)
    case Err(e) => Err(e)
    case Ok(rd) =>
    match DecodeReg(word, 18, Rs1)
    case Err(e) => Err(e)
    case Ok(rs1) =>
    match DecodeReg(word, 14, Rs2)
    case Err(e) => Err(e)
    case Ok(rs2) =>
    var funct := (word & 0x3FFF) as uint16;
    match funct
    case 0x0001 => Ok(Add(rd, rs1, rs2))
    case 0x0002 => Ok(Sub(rd, rs1, rs2))
    case 0x0003 => Ok(And(rd, rs1, rs2))
    case 0x0004 => Ok(Or(rd, rs1, rs2))
    case 0x0005 => Ok(Xor(rd, rs1, rs2))
    case 0x0006 => Ok(Shl(rd, rs1, rs2))
    case 0x0007 => Ok(Shr(rd, rs1, rs2))
    case _ => Err(ReservedFunct(funct))
  }

  /** An add-immediate word decodes exactly when its rs2 slot is zero. */
  function DecodeIAddi(word: uint32): (r: Result<Instr, DecodeError>)
    ensures r.Ok? <==> Rs2Bits(word) == 0
    ensures r.Err? ==> r.error == ReservedField(Rs2, Rs2Bits(word))
    ensures r.Ok? ==> r.value.Addi? && OpcodeOf(r.value) == Opcode.Addi
    ensures r.Ok? ==> r.value.rd.Index() as uint32 == RdBits(word)
    ensures r.Ok? ==> r.value.rs1.Index() as uint32 == Rs1Bits(word)
    ensures r.Ok? ==> r.value.imm == DecodeImm16(word)
  {
    match DecodeReg(word, 22, Rd)
    case Err(e) => Err(e)
    case Ok(rd) =>
    match DecodeReg(word, 18, Rs1)
    case Err(e) => Err(e)
    case Ok(rs1) =>
    match DecodeReg(word, 14, Rs2)
    case Err(e) => Err(e)
    case Ok(rs2) =>
    var _ :- RequireZero(Rs2, rs2.Index() as uint32);
    var imm := DecodeImm16(word);
    Ok(Instr.Addi(rd, rs1, imm))
  }

  /** A load word decodes exactly when its rs2 slot is zero. */
  function DecodeILd(word: uint32): (r: Result<Instr, DecodeError>)
    ensures r.Ok? <==> Rs2Bits(word) == 0
    ensures r.Err? ==> r.error == ReservedField(Rs2, Rs2Bits(word))
    ensures r.Ok? ==> r.value.Ld? && OpcodeOf(r.value) == Opcode.Ld
    ensures r.Ok? ==> r.value.rd.Index() as uint32 == RdBits(word)
    ensures r.Ok? ==> r.value.base.Index() as uint32 == Rs1Bits(word)
    ensures r.Ok? ==> r.value.offset == DecodeImm16(word)
  {
    match DecodeReg(word, 22, Rd)
    case Err(e) => Err(e)
    case Ok(rd) =>
    match DecodeReg(word, 18, Rs1)
    case Err(e) => Err(e)
    case Ok(base) =>
    match DecodeReg(word, 14, Rs2)
    case Err(e) => Err(e)
    case Ok(rs2) =>
    var _ :- RequireZero(Rs2, rs2.Index() as uint32);
    var offset := DecodeImm16(word);
    Ok(Instr.Ld(rd, base, offset))
  }

  /** A store word decodes exactly when its rs2 slot is zero; the stored
      register sits in the rd slot. */
  function DecodeISt(word: uint32): (r: Result<Instr, DecodeError>)
    ensures r.Ok? <==> Rs2Bits(word) == 0
    ensures r.Err? ==> r.error == ReservedField(Rs2, Rs2Bits(word))
    ensures r.Ok? ==> r.value.St? && OpcodeOf(r.value) == Opcode.St
    ensures r.Ok? ==> r.value.rs.Index() as uint32 == RdBits(word)
    ensures r.Ok? ==> r.value.base.Index() as uint32 == Rs1Bits(word)
    ensures r.Ok? ==> r.value.offset == DecodeImm16(word)
  {
    match DecodeReg(word, 22, Rd)
    case Err(e) => Err(e)
    case Ok(rs) =>
    match DecodeReg(word, 18, Rs1)
    case Err(e) => Err(e)
    case Ok(base) =>
    match DecodeReg(word, 14, Rs2)
    case Err(e) => Err(e)
    case Ok(rs2) =>
    var _ :- RequireZero(Rs2, rs2.Index() as uint32);
    var offset := DecodeImm16(word);
    Ok(Instr.St(rs, base, offset))
  }

  /** A branch word decodes exactly when its rd slot is zero and the opcode
      passed in is a branch opcode; the rd check comes first. */
  function DecodeIBranch(word: uint32, opcode: Opcode): (r: Result<Instr, DecodeError>)
    ensures RdBits(word) != 0 ==> r == Err(ReservedField(Rd, RdBits(word)))
    ensures RdBits(word) == 0 && !IsBranchOpcode(opcode) ==> r == Err(ReservedOpcode(opcode.Value()))
    ensures r.Ok? <==> RdBits(word) == 0 && IsBranchOpcode(opcode)
    ensures r.Ok? ==> r.value.IsBranch() && OpcodeOf(r.value) == opcode
    ensures r.Ok? ==> r.value.rs1.Index() as uint32 == Rs1Bits(word)
    ensures r.Ok? ==> r.value.rs2.Index() as uint32 == Rs2Bits(word)
    ensures r.Ok? ==> r.value.offset == DecodeImm16(word)
  {
    match DecodeReg(word, 22, Rd)
    case Err(e) => Err(e)
    case Ok(rd) =>
    var _ :- RequireZero(Rd, rd.Index() as uint32);
    match DecodeReg(word, 18, Rs1)
    case Err(e) => Err(e)
    case Ok(rs1) =>
    match DecodeReg(word, 14, Rs2)
    case Err(e) => Err(e)
    case Ok(rs2) =>
    var offset := DecodeImm16(word);
    MakeBranch(opcode, rs1, rs2, offset)
  }

  /** The branch instruction an opcode names, or `ReservedOpcode` for any
      other opcode. */
  function MakeBranch(opcode: Opcode, rs1: Register, rs2: Register, offset: int16): (r: Result<Instr, DecodeError>)
    ensures r.Ok? <==> IsBranchOpcode(opcode)
    ensures r.Err? ==> r.error == ReservedOpcode(opcode.Value())
    ensures r.Ok? ==> r.value.IsBranch() && OpcodeOf(r.value) == opcode
    ensures r.Ok? ==> r.value.rs1 == rs1 && r.value.rs2 == rs2 && r.value.offset == offset
  {
    match opcode
    case Beq => Ok(Instr.Beq(rs1, rs2, offset))
    case Bne => Ok(Instr.Bne(rs1, rs2, offset))
    case Blt => Ok(Instr.Blt(rs1, rs2, offset))
    case Bge => Ok(Instr.Bge(rs1, rs2, offset))
    case _ => Err(ReservedOpcode(opcode.Value()))
  }

  /** A jump word always decodes when the opcode passed in is a jump opcode,
      to the sign extension of its 26-bit field. */
  function DecodeJ(word: uint32, opcode: Opcode): (r: Result<Instr, DecodeError>)
    ensures r.Ok? <==> opcode == Opcode.Jal || opcode == Opcode.Jmp
    ensures r.Err? ==> r.error == ReservedOpcode(opcode.Value())
    ensures r.Ok? ==> (r.value.Jal? || r.value.Jmp?) && OpcodeOf(r.value) == opcode
    ensures r.Ok? ==> FitsI26(r.value.jumpOffset)
    ensures r.Ok? ==> r.value.jumpOffset % 0x400_0000 == Imm26Bits(word) as int
  {
    var imm := DecodeImm26(word);
    match opcode
    case Jal => Ok(Instr.Jal(imm))
    case Jmp => Ok(Instr.Jmp(imm))
    case _ => Err(ReservedOpcode(opcode.Value()))
  }

  /** An environment-call word decodes exactly when all three register slots
      are zero; otherwise the error names the first non-zero slot in the
      order rd, rs1, rs2. */
  function DecodeIEcall(word: uint32): (r: Result<Instr, DecodeError>)
    ensures RdBits(word) != 0 ==> r == Err(ReservedField(Rd, RdBits(word)))
    ensures RdBits(word) == 0 && Rs1Bits(word) != 0 ==> r == Err(ReservedField(Rs1, Rs1Bits(word)))
    ensures RdBits(word) == 0 && Rs1Bits(word) == 0 && Rs2Bits(word) != 0
            ==> r == Err(ReservedField(Rs2, Rs2Bits(word)))
    ensures r.Ok? <==> RdBits(word) == 0 && Rs1Bits(word) == 0 && Rs2Bits(word) == 0
    ensures r.Ok? ==> r.value.Ecall? && OpcodeOf(r.value) == Opcode.Ecall
    ensures r.Ok? ==> r.value.imm == DecodeImm16(word)
  {
    match DecodeReg(word, 22, Rd)
    case Err(e) => Err(e)
    case Ok(rd) =>
    match DecodeReg(word, 18, Rs1)
    case Err(e) => Err(e)
    case Ok(rs1) =>
    match DecodeReg(word, 14, Rs2)
    case Err(e) => Err(e)
    case Ok(rs2) =>
    var _ :- RequireZero(Rd, rd.Index() as uint32);
    var _ :- RequireZero(Rs1, rs1.Index() as uint32);
    var _ :- RequireZero(Rs2, rs2.Index() as uint32);
    var imm := DecodeImm16(word);
    Ok(Instr.Ecall(imm))
  }

  /** Reading a 4-bit register slot always succeeds: every 4-bit pattern is
      the index of a register. */
  function DecodeReg(word: uint32, shift: uint32, field: Field): (r: Result<Register, DecodeError>)
    requires shift < 32
    ensures r.Ok? && r.value.Index() as uint32 == (word >> shift) & 0xF
  {
    var raw := ((word >> shift) & 0xF) as uint8;
    Register.FromU8(raw).OkOr(InvalidRegister(field, raw))
  }

  /** The low 16 bits reinterpreted as an `i16`: the immediate whose bit
      pattern they are. */
  function DecodeImm16(word: uint32): (imm: int16)
    ensures I16ToU16(imm) as uint32 == Imm16Bits(word)
  {
    var raw := (word & 0xFFFF) as uint16;
    U16RoundTrip(raw);
    U16ToI16(raw)
  }

  /** The low 26 bits sign-extended: shifted to the top of the word,
      reinterpreted as an `i32` and shifted back arithmetically (an
      arithmetic shift right by 6 is a floor division by 64, which is what
      Dafny's `/` computes for a positive divisor). The result fits 26 bits
      and is congruent to the field modulo 2^26. */
  function DecodeImm26(word: uint32): (imm: int32)
    ensures FitsI26(imm)
    ensures imm % 0x400_0000 == Imm26Bits(word) as int
  {
    var raw := word & 0x03FF_FFFF;
    var shifted := raw << 6;
    assert shifted as int == raw as int * 64 && raw as int < 0x400_0000 by {
      ShiftLeftSix(raw);
    }
    var wide := U32ToI32(shifted);
    SignExtend26(raw as int, wide);
    wide / 64
  }

  /** Shifting a 26-bit value left by six multiplies it by 64. */
  lemma ShiftLeftSix(raw: uint32)
    requires raw <= 0x03FF_FFFF
    ensures (raw << 6) as int == raw as int * 64
    ensures raw as int < 0x400_0000
  {
    Narrow26(raw);
  }

  /** The arithmetic behind the sign extension: an `i32` congruent to
      `64 * field` modulo 2^32, divided by 64, fits 26 bits and is congruent
      to the field modulo 2^26. */
  lemma SignExtend26(field: int, wide: int)
    requires 0 <= field < 0x400_0000
    requires -0x8000_0000 <= wide < 0x8000_0000
    requires wide % 0x1_0000_0000 == field * 64
    ensures -0x200_0000 <= wide / 64 < 0x200_0000
    ensures (wide / 64) % 0x400_0000 == field
  {
    if field < 0x200_0000 {
      assert wide == field * 64;
    } else {
      assert wide == field * 64 - 0x1_0000_0000;
      assert wide / 64 == field - 0x400_0000;
    }
  }

  /** Succeeds exactly on zero; otherwise names the slot and its value. */
  function RequireZero(field: Field, value: uint32): (r: Result<(), DecodeError>)
    ensures r.Ok? <==> value == 0
    ensures r.Err? ==> r.error == ReservedField(field, value)
  {
    if value == 0 then Ok(()) else Err(ReservedField(field, value))
  }
}
