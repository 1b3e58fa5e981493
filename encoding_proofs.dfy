/** Properties of the encoder and decoder taken together: which
    instructions survive an encode/decode round trip, that every word the
    decoder accepts is the encoding of what it decodes to, and which words it
    rejects and why. */
module EncodingProofs {
  import opened TwosComplement
  import opened Wrappers
  import opened Instructions
  import opened Encoding

  // ---------------------------------------------------------------------
  // Dispatch on the opcode field
  // ---------------------------------------------------------------------

  /** The decoder looks up exactly the opcode whose discriminant sits in the
      top six bits. */
  lemma OpcodeLookup(word: uint32, op: Opcode)
    requires OpcodeBits(word) == op.Value() as uint32
    ensures Opcode.FromU8(((word >> 26) & 0x3F) as uint8) == Some(op)
  {
    assert ((word >> 26) & 0x3F) as uint8 == op.Value() by {
      NarrowOpcode(word, op.Value());
    }
    ValueRoundTrip(op);
  }

  lemma NarrowOpcode(word: uint32, v: uint8)
    requires OpcodeBits(word) == v as uint32
    ensures ((word >> 26) & 0x3F) as uint8 == v
  {
  }

  /** Each opcode selects its own decoder. */
  lemma DecodeSelects(word: uint32, op: Opcode)
    requires OpcodeBits(word) == op.Value() as uint32
    ensures op == Opcode.RType ==> Decode(word) == DecodeR(word)
    ensures op == Opcode.Addi ==> Decode(word) == DecodeIAddi(word)
    ensures op == Opcode.Ld ==> Decode(word) == DecodeILd(word)
    ensures op == Opcode.St ==> Decode(word) == DecodeISt(word)
    ensures op.Beq? || op.Bne? || op.Blt? || op.Bge? ==> Decode(word) == DecodeIBranch(word, op)
    ensures op.Jal? || op.Jmp? ==> Decode(word) == DecodeJ(word, op)
    ensures op == Opcode.Ecall ==> Decode(word) == DecodeIEcall(word)
  {
    OpcodeLookup(word, op);
  }

  /** Every instruction's word carries, in bits 31:26, the opcode of its
      family: 0 for the register-register forms, the form's own opcode for
      the others. */
  lemma EncodeOpcode(instr: Instr)
    requires Encodable(instr)
    ensures OpcodeBits(Encode(instr)) == OpcodeOf(instr).Value() as uint32
  {
  }

  // ---------------------------------------------------------------------
  // Register-register instructions
  // ---------------------------------------------------------------------

  /** Every register-register instruction, with any registers, survives the
      round trip: its five fields occupy disjoint bits. */
  lemma RoundTripR(instr: Instr)
    requires instr.IsRType()
    ensures Decode(Encode(instr)) == Ok(instr)
  {
    var word := Encode(instr);
    assert word == EncodeR(instr.rd, instr.rs1, instr.rs2, FunctOf(instr));
    assert FunctBits(word) == FunctOf(instr) as uint32 by {
      SmallFunct(FunctOf(instr));
    }
    DecodeSelects(word, Opcode.RType);
    var d := DecodeR(word).value;
    IndexInjective(d.rd, instr.rd);
    IndexInjective(d.rs1, instr.rs1);
    IndexInjective(d.rs2, instr.rs2);
    FunctDetermines(d, instr);
  }

  lemma SmallFunct(funct: uint16)
    requires 1 <= funct <= 7
    ensures funct as uint32 & 0x3FFF == funct as uint32
    ensures 1 <= funct as uint32 <= 7
  {
  }

  /** A register-register instruction is determined by its function code and
      its three registers. */
  lemma FunctDetermines(a: Instr, b: Instr)
    requires a.IsRType() && b.IsRType() && FunctOf(a) == FunctOf(b)
    requires a.rd == b.rd && a.rs1 == b.rs1 && a.rs2 == b.rs2
    ensures a == b
  {
  }

  // ---------------------------------------------------------------------
  // Jumps
  // ---------------------------------------------------------------------

  /** A jump whose offset fits 26 signed bits survives the round trip, the
      extreme offsets -2^25 and 2^25 - 1 included. */
  lemma RoundTripJump(instr: Instr)
    requires (instr.Jal? || instr.Jmp?) && FitsI26(instr.jumpOffset)
    ensures Decode(Encode(instr)) == Ok(instr)
  {
    var op := OpcodeOf(instr);
    var word := Encode(instr);
    assert word == EncodeJ(op, instr.jumpOffset);
    DecodeSelects(word, op);
    var d := DecodeJ(word, op).value;
    CongruentFitsI26(d.jumpOffset, instr.jumpOffset);
  }

  /** Two offsets that fit 26 signed bits and agree modulo 2^26 are equal. */
  lemma CongruentFitsI26(a: int32, b: int32)
    requires FitsI26(a) && FitsI26(b)
    requires a % 0x400_0000 == b % 0x400_0000
    ensures a == b
  {
    var qa, qb := a / 0x400_0000, b / 0x400_0000;
    assert qa == -1 || qa == 0;
    assert qb == -1 || qb == 0;
  }

  // ---------------------------------------------------------------------
  // The 16-bit immediate
  // ---------------------------------------------------------------------

  /** The top two bits of an immediate's bit pattern are zero exactly when
      the immediate is in 0..0x3FFF. */
  lemma ImmTopBits(imm: int16)
    ensures I16ToU16(imm) as uint32 >> 14 == 0 <==> 0 <= imm < 0x4000
  {
    var b := I16ToU16(imm);
    QuarterSplit(b);
    TopBitsZero(b);
    TopQuarter(imm, b as int, ((b >> 14) as bv2) as int, ((b & 0x3FFF) as bv14) as int);
  }

  /** A half-word's value is its top two bits times 2^14 plus its low 14. */
  lemma QuarterSplit(b: uint16)
    ensures b as int == ((b >> 14) as bv2) as int * 0x4000 + ((b & 0x3FFF) as bv14) as int
  {
    var top, low := (b >> 14) as bv2, (b & 0x3FFF) as bv14;
    Rejoin14(b);
    SplitValue14(top, low);
  }

  lemma TopBitsZero(b: uint16)
    ensures b as uint32 >> 14 == 0 <==> ((b >> 14) as bv2) as int == 0
  {
    TopBitsWiden(b);
    Bv2Zero((b >> 14) as bv2);
  }

  lemma Bv2Zero(x: bv2)
    ensures x == 0 <==> x as int == 0
  {
  }

  /** The arithmetic behind `ImmTopBits`: the quotient of an immediate's
      residue modulo 2^16 by 2^14 is zero exactly on 0..0x3FFF. */
  lemma TopQuarter(imm: int16, value: int, t: int, l: int)
    requires value == imm % 0x1_0000
    requires value == t * 0x4000 + l && 0 <= t < 4 && 0 <= l < 0x4000
    ensures t == 0 <==> 0 <= imm < 0x4000
  {
  }

  lemma Rejoin14(b: uint16)
    ensures b as int == ((((b >> 14) as bv2) as uint16 << 14) | (((b & 0x3FFF) as bv14) as uint16)) as int
  {
    assert b == (((b >> 14) as bv2) as uint16 << 14) | (((b & 0x3FFF) as bv14) as uint16);
  }

  lemma SplitValue14(top: bv2, low: bv14)
    ensures (((top as uint16) << 14) | (low as uint16)) as int == top as int * 0x4000 + low as int
  {
  }

  lemma TopBitsWiden(b: uint16)
    ensures b as uint32 >> 14 == 0 <==> (b >> 14) as bv2 == 0
  {
  }

  /** The decoder reads back an immediate from a word whose low half-word is
      its bit pattern. */
  lemma Imm16Determines(word: uint32, imm: int16)
    requires Imm16Bits(word) == I16ToU16(imm) as uint32
    ensures DecodeImm16(word) == imm
  {
    SamePatternSameI16(Imm16Bits(word), DecodeImm16(word), imm);
  }

  lemma SamePatternSameI16(pattern: uint32, a: int16, b: int16)
    requires I16ToU16(a) as uint32 == pattern && I16ToU16(b) as uint32 == pattern
    ensures a == b
  {
    SameBitsSameI16(a, b);
  }

  /** Distinct `i16` values have distinct bit patterns. */
  lemma SameBitsSameI16(a: int16, b: int16)
    requires I16ToU16(a) as uint32 == I16ToU16(b) as uint32
    ensures a == b
  {
    ZeroExtendInjective(I16ToU16(a), I16ToU16(b));
    I16RoundTrip(a);
    I16RoundTrip(b);
  }

  lemma ZeroExtendInjective(a: uint16, b: uint16)
    requires a as uint32 == b as uint32
    ensures a == b
  {
  }

  // ---------------------------------------------------------------------
  // Register-immediate forms with a zero rs2 slot: Addi, Ld, St, Ecall
  // ---------------------------------------------------------------------

  /** With R0 in the rs2 slot, the slot reads back as the immediate's top two
      bits and the immediate reads back unchanged. */
  lemma ZeroRs2Word(opcode: Opcode, rd: Register, rs1: Register, imm: int16)
    ensures Rs2Bits(EncodeI(opcode, rd, rs1, R0, imm)) == I16ToU16(imm) as uint32 >> 14
    ensures Imm16Bits(EncodeI(opcode, rd, rs1, R0, imm)) == I16ToU16(imm) as uint32
  {
    EncodeIRs2(opcode, rd, rs1, R0, imm);
    EncodeIImm(opcode, rd, rs1, R0, imm);
    OrZero(I16ToU16(imm) as uint32);
  }

  lemma OrZero(x: uint32)
    ensures 0 | (x >> 14) == x >> 14
    ensures x | ((0 & 3) << 14) == x
  {
  }

  /** An add-immediate survives the round trip exactly when its immediate is
      in 0..0x3FFF; otherwise the immediate's top two bits are read as a
      non-zero rs2 slot and the decoder rejects the word. */
  lemma RoundTripAddi(rd: Register, rs1: Register, imm: int16)
    ensures Decode(Encode(Instr.Addi(rd, rs1, imm)))
            == if 0 <= imm < 0x4000 then Ok(Instr.Addi(rd, rs1, imm))
               else Err(ReservedField(Rs2, I16ToU16(imm) as uint32 >> 14))
  {
    var word := EncodeI(Opcode.Addi, rd, rs1, R0, imm);
    ZeroRs2Word(Opcode.Addi, rd, rs1, imm);
    ImmTopBits(imm);
    DecodeSelects(word, Opcode.Addi);
    if 0 <= imm < 0x4000 {
      var d := DecodeIAddi(word).value;
      Imm16Determines(word, imm);
      IndexInjective(d.rd, rd);
      IndexInjective(d.rs1, rs1);
    }
  }

  /** A load survives the round trip exactly when its offset is in
      0..0x3FFF. */
  lemma RoundTripLd(rd: Register, base: Register, offset: int16)
    ensures Decode(Encode(Instr.Ld(rd, base, offset)))
            == if 0 <= offset < 0x4000 then Ok(Instr.Ld(rd, base, offset))
               else Err(ReservedField(Rs2, I16ToU16(offset) as uint32 >> 14))
  {
    var word := EncodeI(Opcode.Ld, rd, base, R0, offset);
    ZeroRs2Word(Opcode.Ld, rd, base, offset);
    ImmTopBits(offset);
    DecodeSelects(word, Opcode.Ld);
    if 0 <= offset < 0x4000 {
      var d := DecodeILd(word).value;
      Imm16Determines(word, offset);
      IndexInjective(d.rd, rd);
      IndexInjective(d.base, base);
    }
  }

  /** A store survives the round trip exactly when its offset is in
      0..0x3FFF. */
  lemma RoundTripSt(rs: Register, base: Register, offset: int16)
    ensures Decode(Encode(Instr.St(rs, base, offset)))
            == if 0 <= offset < 0x4000 then Ok(Instr.St(rs, base, offset))
               else Err(ReservedField(Rs2, I16ToU16(offset) as uint32 >> 14))
  {
    var word := EncodeI(Opcode.St, rs, base, R0, offset);
    ZeroRs2Word(Opcode.St, rs, base, offset);
    ImmTopBits(offset);
    DecodeSelects(word, Opcode.St);
    if 0 <= offset < 0x4000 {
      var d := DecodeISt(word).value;
      Imm16Determines(word, offset);
      IndexInjective(d.rs, rs);
      IndexInjective(d.base, base);
    }
  }

  /** An environment call survives the round trip exactly when its code is
      in 0..0x3FFF; rd and rs1 are always zero, so a failure always names
      rs2. */
  lemma RoundTripEcall(imm: int16)
    ensures Decode(Encode(Instr.Ecall(imm)))
            == if 0 <= imm < 0x4000 then Ok(Instr.Ecall(imm))
               else Err(ReservedField(Rs2, I16ToU16(imm) as uint32 >> 14))
  {
    var word := EncodeI(Opcode.Ecall, R0, R0, R0, imm);
    ZeroRs2Word(Opcode.Ecall, R0, R0, imm);
    ImmTopBits(imm);
    DecodeSelects(word, Opcode.Ecall);
    if 0 <= imm < 0x4000 {
      Imm16Determines(word, imm);
    }
  }

  // ---------------------------------------------------------------------
  // Branches
  // ---------------------------------------------------------------------

  /** A branch instruction is encoded as a register-immediate word with R0
      in the rd slot. */
  lemma BranchWord(instr: Instr)
    requires instr.IsBranch()
    ensures Encode(instr) == EncodeI(OpcodeOf(instr), R0, instr.rs1, instr.rs2, instr.offset)
  {
  }

  /** A branch word always decodes, to the branch its opcode names, on the
      same rs1. */
  lemma BranchWordDecodes(op: Opcode, rs1: Register, rs2: Register, offset: int16)
    requires IsBranchOpcode(op)
    ensures Decode(EncodeI(op, R0, rs1, rs2, offset)).Ok?
    ensures Decode(EncodeI(op, R0, rs1, rs2, offset)).value.IsBranch()
    ensures OpcodeOf(Decode(EncodeI(op, R0, rs1, rs2, offset)).value) == op
    ensures Decode(EncodeI(op, R0, rs1, rs2, offset)).value.rs1 == rs1
  {
    var word := EncodeI(op, R0, rs1, rs2, offset);
    DecodeSelects(word, op);
    IndexInjective(DecodeIBranch(word, op).value.rs1, rs1);
  }

  /** The rs2 slot of a branch word comes back ORed with the offset's top
      two bits. */
  lemma BranchWordRs2(op: Opcode, rs1: Register, rs2: Register, offset: int16)
    requires IsBranchOpcode(op)
    ensures Decode(EncodeI(op, R0, rs1, rs2, offset)).Ok?
    ensures Decode(EncodeI(op, R0, rs1, rs2, offset)).value.rs2.Index() as uint32
            == rs2.Index() as uint32 | (I16ToU16(offset) as uint32 >> 14)
  {
    var word := EncodeI(op, R0, rs1, rs2, offset);
    EncodeIRs2(op, R0, rs1, rs2, offset);
    DecodeSelects(word, op);
  }

  /** The offset a branch reads back: its bit pattern with bits 15:14 ORed
      with the low two bits of its rs2 index. */
  ghost function OverlaidOffset(offset: int16, rs2: Register): int16 {
    U16ToI16(I16ToU16(offset) | ((rs2.Index() as uint16 & 3) << 14))
  }

  /** The offset of a branch word comes back overlaid with rs2. */
  lemma BranchWordOffset(op: Opcode, rs1: Register, rs2: Register, offset: int16)
    requires IsBranchOpcode(op)
    ensures Decode(EncodeI(op, R0, rs1, rs2, offset)).Ok?
    ensures Decode(EncodeI(op, R0, rs1, rs2, offset)).value.offset == OverlaidOffset(offset, rs2)
  {
    var word := EncodeI(op, R0, rs1, rs2, offset);
    DecodeSelects(word, op);
    ImmOverlaid(op, R0, rs1, rs2, offset);
  }

  /** The immediate read back from any register-immediate word is the
      encoded one overlaid with the low two bits of rs2. */
  lemma ImmOverlaid(op: Opcode, rd: Register, rs1: Register, rs2: Register, imm: int16)
    ensures DecodeImm16(EncodeI(op, rd, rs1, rs2, imm)) == OverlaidOffset(imm, rs2)
  {
    var word := EncodeI(op, rd, rs1, rs2, imm);
    EncodeIImm(op, rd, rs1, rs2, imm);
    U16RoundTrip(I16ToU16(imm) | ((rs2.Index() as uint16 & 3) << 14));
    WidenOverlay(I16ToU16(imm), rs2.Index());
    Imm16Determines(word, OverlaidOffset(imm, rs2));
  }

  lemma WidenOverlay(p: uint16, r: uint8)
    ensures (p | ((r as uint16 & 3) << 14)) as uint32 == p as uint32 | ((r as uint32 & 3) << 14)
  {
  }

  /** A branch survives the round trip exactly when the top two bits of its
      offset's bit pattern equal the low two bits of its rs2 index. */
  lemma RoundTripBranch(instr: Instr)
    requires instr.IsBranch()
    ensures Decode(Encode(instr)) == Ok(instr)
            <==> I16ToU16(instr.offset) as uint32 >> 14 == instr.rs2.Index() as uint32 & 3
  {
    BranchDecodesTo(instr);
    BranchReadBack(Decode(Encode(instr)).value, instr);
  }

  /** A branch always decodes, to the same kind of branch on the same rs1,
      but with the overlap applied both ways: the rs2 index comes back ORed
      with the offset's top two bits, and the offset comes back overlaid with
      the low two bits of rs2. */
  lemma BranchDecodesTo(instr: Instr)
    requires instr.IsBranch()
    ensures Decode(Encode(instr)).Ok?
    ensures var d := Decode(Encode(instr)).value;
            d.IsBranch() && OpcodeOf(d) == OpcodeOf(instr) && d.rs1 == instr.rs1
            && d.rs2.Index() as uint32 == instr.rs2.Index() as uint32 | (I16ToU16(instr.offset) as uint32 >> 14)
            && d.offset == OverlaidOffset(instr.offset, instr.rs2)
  {
    var op, rs1, rs2, offset := OpcodeOf(instr), instr.rs1, instr.rs2, instr.offset;
    BranchWord(instr);
    BranchWordDecodes(op, rs1, rs2, offset);
    BranchWordRs2(op, rs1, rs2, offset);
    BranchWordOffset(op, rs1, rs2, offset);
  }

  /** A branch read back with rs2 and the offset overlaid is the original
      exactly when the shared bits agree. */
  lemma BranchReadBack(d: Instr, instr: Instr)
    requires d.IsBranch() && instr.IsBranch() && OpcodeOf(d) == OpcodeOf(instr) && d.rs1 == instr.rs1
    requires d.rs2.Index() as uint32 == instr.rs2.Index() as uint32 | (I16ToU16(instr.offset) as uint32 >> 14)
    requires d.offset == OverlaidOffset(instr.offset, instr.rs2)
    ensures d == instr <==> I16ToU16(instr.offset) as uint32 >> 14 == instr.rs2.Index() as uint32 & 3
  {
    var p, r := I16ToU16(instr.offset), instr.rs2.Index();
    if p as uint32 >> 14 == r as uint32 & 3 {
      OverlapAgrees(p, r);
      IndexInjective(d.rs2, instr.rs2);
      OverlaidUnchanged(instr.offset, instr.rs2);
      BranchDetermines(d, instr);
    } else {
      OverlapDisagrees(p, r);
      if r as uint32 | (p as uint32 >> 14) == r as uint32 {
        OverlaidChanged(instr.offset, instr.rs2);
      }
    }
  }

  lemma OverlaidUnchanged(offset: int16, rs2: Register)
    requires I16ToU16(offset) | ((rs2.Index() as uint16 & 3) << 14) == I16ToU16(offset)
    ensures OverlaidOffset(offset, rs2) == offset
  {
    I16RoundTrip(offset);
  }

  lemma OverlaidChanged(offset: int16, rs2: Register)
    requires I16ToU16(offset) | ((rs2.Index() as uint16 & 3) << 14) != I16ToU16(offset)
    ensures OverlaidOffset(offset, rs2) != offset
  {
    U16RoundTrip(I16ToU16(offset) | ((rs2.Index() as uint16 & 3) << 14));
  }

  /** When the shared bits agree, ORing either field into the other changes
      nothing. */
  lemma OverlapAgrees(p: uint16, r: uint8)
    requires r < 16 && p as uint32 >> 14 == r as uint32 & 3
    ensures r as uint32 | (p as uint32 >> 14) == r as uint32
    ensures p | ((r as uint16 & 3) << 14) == p
  {
  }

  /** When the shared bits disagree, ORing changes one of the two fields. */
  lemma OverlapDisagrees(p: uint16, r: uint8)
    requires r < 16 && p as uint32 >> 14 != r as uint32 & 3
    ensures r as uint32 | (p as uint32 >> 14) != r as uint32 || p | ((r as uint16 & 3) << 14) != p
  {
  }

  /** A branch is determined by its opcode and its three fields. */
  lemma BranchDetermines(a: Instr, b: Instr)
    requires a.IsBranch() && b.IsBranch() && OpcodeOf(a) == OpcodeOf(b)
    requires a.rs1 == b.rs1 && a.rs2 == b.rs2 && a.offset == b.offset
    ensures a == b
  {
  }

  // ---------------------------------------------------------------------
  // Which instructions survive the round trip, in closed form
  // ---------------------------------------------------------------------

  /** The top two bits of an immediate's bit pattern, as a number. */
  function TopBits(x: int16): int {
    (x % 0x1_0000) / 0x4000
  }

  /** The instructions that come back from encode-then-decode unchanged:
      every register-register instruction and every jump; an add-immediate,
      load, store or environment call whose immediate is in 0..0x3FFF; a
      branch whose offset's top two bits equal the low two bits of rs2's
      index. */
  predicate Survives(instr: Instr) {
    match instr
    case Addi(_, _, imm) => 0 <= imm < 0x4000
    case Ld(_, _, offset) => 0 <= offset < 0x4000
    case St(_, _, offset) => 0 <= offset < 0x4000
    case Ecall(imm) => 0 <= imm < 0x4000
    case Beq(_, rs2, offset) => TopBits(offset) == rs2.Index() as int % 4
    case Bne(_, rs2, offset) => TopBits(offset) == rs2.Index() as int % 4
    case Blt(_, rs2, offset) => TopBits(offset) == rs2.Index() as int % 4
    case Bge(_, rs2, offset) => TopBits(offset) == rs2.Index() as int % 4
    case _ => true
  }

  /** The round trip, characterised: an encodable instruction comes back
      from encode-then-decode unchanged exactly when it `Survives`. */
  lemma RoundTripIff(instr: Instr)
    requires Encodable(instr)
    ensures Decode(Encode(instr)) == Ok(instr) <==> Survives(instr)
  {
    if instr.IsRType() {
      RoundTripR(instr);
    } else if instr.IsBranch() {
      RoundTripBranch(instr);
      BranchSurvives(instr);
    } else if instr.Jal? || instr.Jmp? {
      RoundTripJump(instr);
    } else {
      ImmediateSurvives(instr);
    }
  }

  lemma ImmediateSurvives(instr: Instr)
    requires instr.Addi? || instr.Ld? || instr.St? || instr.Ecall?
    ensures Decode(Encode(instr)) == Ok(instr) <==> Survives(instr)
  {
    match instr
    case Addi(rd, rs1, imm) => RoundTripAddi(rd, rs1, imm);
    case Ld(rd, base, offset) => RoundTripLd(rd, base, offset);
    case St(rs, base, offset) => RoundTripSt(rs, base, offset);
    case Ecall(imm) => RoundTripEcall(imm);
  }

  /** The bit-level agreement condition of `RoundTripBranch` is the
      arithmetic one of `Survives`. */
  lemma BranchSurvives(instr: Instr)
    requires instr.IsBranch()
    ensures Survives(instr) <==> I16ToU16(instr.offset) as uint32 >> 14 == instr.rs2.Index() as uint32 & 3
  {
    var top, low := I16ToU16(instr.offset) as uint32 >> 14, instr.rs2.Index() as uint32 & 3;
    TopBitsValue(instr.offset);
    LowBitsValue(instr.rs2.Index());
    assert Survives(instr) <==> top as int == low as int;
    if top as int == low as int {
      U32Injective(top, low);
    }
  }

  /** The top two bits of an immediate's pattern have the value `TopBits`. */
  lemma TopBitsValue(x: int16)
    ensures (I16ToU16(x) as uint32 >> 14) as int == TopBits(x)
  {
    var b := I16ToU16(x);
    var t := (b >> 14) as bv2;
    QuarterSplit(b);
    TopBitsNarrow(b);
    Bv2Value(t);
    Quotient(b as int, t as int, ((b & 0x3FFF) as bv14) as int);
  }

  lemma TopBitsNarrow(b: uint16)
    ensures b as uint32 >> 14 == ((b >> 14) as bv2) as uint32
  {
  }

  lemma Bv2Value(t: bv2)
    ensures (t as uint32) as int == t as int
  {
  }

  lemma Quotient(value: int, t: int, l: int)
    requires value == t * 0x4000 + l && 0 <= l < 0x4000
    ensures value / 0x4000 == t
  {
  }

  /** The low two bits of a register index have the value of the index
      modulo 4. */
  lemma LowBitsValue(v: uint8)
    requires v < 16
    ensures (v as uint32 & 3) as int == v as int % 4
  {
  }

  // ---------------------------------------------------------------------
  // Canonicality: every accepted word is the encoding of its decoding
  // ---------------------------------------------------------------------

  /** A register-register word is determined by its five fields. */
  lemma RFieldsDetermine(w1: uint32, w2: uint32)
    requires OpcodeBits(w1) == OpcodeBits(w2) && RdBits(w1) == RdBits(w2)
    requires Rs1Bits(w1) == Rs1Bits(w2) && Rs2Bits(w1) == Rs2Bits(w2)
    requires FunctBits(w1) == FunctBits(w2)
    ensures w1 == w2
  {
  }

  /** A register-immediate word is determined by its opcode, rd and rs1
      slots, its rs2 slot and its immediate. */
  lemma IFieldsDetermine(w1: uint32, w2: uint32)
    requires OpcodeBits(w1) == OpcodeBits(w2) && RdBits(w1) == RdBits(w2)
    requires Rs1Bits(w1) == Rs1Bits(w2) && Rs2Bits(w1) == Rs2Bits(w2)
    requires Imm16Bits(w1) == Imm16Bits(w2)
    ensures w1 == w2
  {
  }

  /** A jump word is determined by its opcode and its 26-bit field. */
  lemma JFieldsDetermine(w1: uint32, w2: uint32)
    requires OpcodeBits(w1) == OpcodeBits(w2) && Imm26Bits(w1) == Imm26Bits(w2)
    ensures w1 == w2
  {
  }

  /** Bits 15:14 of a word are read both as the low bits of the rs2 slot and
      as the top bits of the immediate, so the two views agree there. */
  lemma SharedBitsRs2(word: uint32)
    ensures Rs2Bits(word) | (Imm16Bits(word) >> 14) == Rs2Bits(word)
  {
  }

  lemma SharedBitsImm(word: uint32)
    ensures Imm16Bits(word) | ((Rs2Bits(word) & 3) << 14) == Imm16Bits(word)
  {
  }

  /** An instruction of each family is encoded by its family's encoder. */
  lemma RWord(instr: Instr)
    requires instr.IsRType()
    ensures Encode(instr) == EncodeR(instr.rd, instr.rs1, instr.rs2, FunctOf(instr))
  {
  }

  lemma CanonicalR(word: uint32)
    requires OpcodeBits(word) == Opcode.RType.Value() as uint32 && Decode(word).Ok?
    ensures Encodable(Decode(word).value) && Encode(Decode(word).value) == word
  {
    DecodeSelects(word, Opcode.RType);
    var d := DecodeR(word).value;
    RWord(d);
    SmallFunct(FunctOf(d));
    RFieldsDetermine(word, Encode(d));
  }

  /** A register-immediate word with a zero rs2 slot is the encoding of its
      own opcode, rd, rs1 and immediate with R0 in the rs2 slot. */
  lemma ZeroRs2Canonical(word: uint32, op: Opcode, rd: Register, rs1: Register, imm: int16)
    requires OpcodeBits(word) == op.Value() as uint32
    requires RdBits(word) == rd.Index() as uint32 && Rs1Bits(word) == rs1.Index() as uint32
    requires Rs2Bits(word) == 0 && imm == DecodeImm16(word)
    ensures EncodeI(op, rd, rs1, R0, imm) == word
  {
    var w := EncodeI(op, rd, rs1, R0, imm);
    ZeroRs2Word(op, rd, rs1, imm);
    ImmBitsOfDecoded(word, imm);
    SharedBitsRs2(word);
    IFieldsDetermine(word, w);
  }

  /** The decoded immediate's bit pattern is the word's low half-word. */
  lemma ImmBitsOfDecoded(word: uint32, imm: int16)
    requires imm == DecodeImm16(word)
    ensures I16ToU16(imm) as uint32 == Imm16Bits(word)
  {
  }

  lemma CanonicalAddi(word: uint32)
    requires OpcodeBits(word) == Opcode.Addi.Value() as uint32 && Decode(word).Ok?
    ensures Encodable(Decode(word).value) && Encode(Decode(word).value) == word
  {
    DecodeSelects(word, Opcode.Addi);
    var d := DecodeIAddi(word).value;
    ZeroRs2Canonical(word, Opcode.Addi, d.rd, d.rs1, d.imm);
  }

  lemma CanonicalLd(word: uint32)
    requires OpcodeBits(word) == Opcode.Ld.Value() as uint32 && Decode(word).Ok?
    ensures Encodable(Decode(word).value) && Encode(Decode(word).value) == word
  {
    DecodeSelects(word, Opcode.Ld);
    var d := DecodeILd(word).value;
    ZeroRs2Canonical(word, Opcode.Ld, d.rd, d.base, d.offset);
  }

  lemma CanonicalSt(word: uint32)
    requires OpcodeBits(word) == Opcode.St.Value() as uint32 && Decode(word).Ok?
    ensures Encodable(Decode(word).value) && Encode(Decode(word).value) == word
  {
    DecodeSelects(word, Opcode.St);
    var d := DecodeISt(word).value;
    ZeroRs2Canonical(word, Opcode.St, d.rs, d.base, d.offset);
  }

  lemma CanonicalEcall(word: uint32)
    requires OpcodeBits(word) == Opcode.Ecall.Value() as uint32 && Decode(word).Ok?
    ensures Encodable(Decode(word).value) && Encode(Decode(word).value) == word
  {
    EcallAccepted(word);
    EcallWord(word);
  }

  /** An accepted environment-call word has three zero register slots and
      decodes to its low half-word. */
  lemma EcallAccepted(word: uint32)
    requires OpcodeBits(word) == Opcode.Ecall.Value() as uint32 && Decode(word).Ok?
    ensures RdBits(word) == 0 && Rs1Bits(word) == 0 && Rs2Bits(word) == 0
    ensures Decode(word) == Ok(Instr.Ecall(DecodeImm16(word)))
  {
    DecodeSelects(word, Opcode.Ecall);
  }

  lemma EcallWord(word: uint32)
    requires OpcodeBits(word) == Opcode.Ecall.Value() as uint32
    requires RdBits(word) == 0 && Rs1Bits(word) == 0 && Rs2Bits(word) == 0
    ensures Encode(Instr.Ecall(DecodeImm16(word))) == word
  {
    ZeroRs2Canonical(word, Opcode.Ecall, R0, R0, DecodeImm16(word));
  }

  /** A branch word with a zero rd slot is the encoding of its own opcode,
      rs1, rs2 and immediate: the encoder ORs bits 15:14 into both the rs2
      slot and the immediate, and in a word read back they already agree. */
  lemma BranchCanonicalWord(word: uint32, op: Opcode, rs1: Register, rs2: Register, offset: int16)
    requires OpcodeBits(word) == op.Value() as uint32 && RdBits(word) == 0
    requires Rs1Bits(word) == rs1.Index() as uint32 && Rs2Bits(word) == rs2.Index() as uint32
    requires offset == DecodeImm16(word)
    ensures EncodeI(op, R0, rs1, rs2, offset) == word
  {
    var w := EncodeI(op, R0, rs1, rs2, offset);
    BranchRs2Agrees(word, op, rs1, rs2, offset);
    BranchImmAgrees(word, op, rs1, rs2, offset);
    IFieldsDetermine(word, w);
  }

  lemma BranchRs2Agrees(word: uint32, op: Opcode, rs1: Register, rs2: Register, offset: int16)
    requires Rs2Bits(word) == rs2.Index() as uint32 && offset == DecodeImm16(word)
    ensures Rs2Bits(EncodeI(op, R0, rs1, rs2, offset)) == Rs2Bits(word)
  {
    EncodeIRs2(op, R0, rs1, rs2, offset);
    ImmBitsOfDecoded(word, offset);
    SharedBitsRs2(word);
  }

  lemma BranchImmAgrees(word: uint32, op: Opcode, rs1: Register, rs2: Register, offset: int16)
    requires Rs2Bits(word) == rs2.Index() as uint32 && offset == DecodeImm16(word)
    ensures Imm16Bits(EncodeI(op, R0, rs1, rs2, offset)) == Imm16Bits(word)
  {
    EncodeIImm(op, R0, rs1, rs2, offset);
    ImmBitsOfDecoded(word, offset);
    SharedBitsImm(word);
  }

  lemma CanonicalBranch(word: uint32, op: Opcode)
    requires IsBranchOpcode(op) && OpcodeBits(word) == op.Value() as uint32 && Decode(word).Ok?
    ensures Encodable(Decode(word).value) && Encode(Decode(word).value) == word
  {
    DecodeSelects(word, op);
    BranchDecoderCanonical(word, op);
  }

  /** The branch decoder's result, when there is one, encodes back to the
      word. */
  lemma BranchDecoderCanonical(word: uint32, op: Opcode)
    requires IsBranchOpcode(op) && OpcodeBits(word) == op.Value() as uint32 && DecodeIBranch(word, op).Ok?
    ensures Encodable(DecodeIBranch(word, op).value) && Encode(DecodeIBranch(word, op).value) == word
  {
    var d := DecodeIBranch(word, op).value;
    BranchWord(d);
    BranchCanonicalWord(word, op, d.rs1, d.rs2, d.offset);
  }

  /** A jump word is the encoding of its opcode and its sign-extended
      field. */
  lemma JumpCanonicalWord(word: uint32, op: Opcode, offset: int32)
    requires OpcodeBits(word) == op.Value() as uint32
    requires FitsI26(offset) && offset % 0x400_0000 == Imm26Bits(word) as int
    ensures EncodeJ(op, offset) == word
  {
    var w := EncodeJ(op, offset);
    U32Injective(Imm26Bits(w), Imm26Bits(word));
    JFieldsDetermine(word, w);
  }

  lemma CanonicalJump(word: uint32, op: Opcode)
    requires (op.Jal? || op.Jmp?) && OpcodeBits(word) == op.Value() as uint32 && Decode(word).Ok?
    ensures Encodable(Decode(word).value) && Encode(Decode(word).value) == word
  {
    DecodeSelects(word, op);
    var d := DecodeJ(word, op).value;
    JumpCanonicalWord(word, op, d.jumpOffset);
  }

  /** Canonicality: every word the decoder accepts is the encoding of the
      instruction it decodes to. */
  lemma Canonical(word: uint32)
    requires Decode(word).Ok?
    ensures Encodable(Decode(word).value) && Encode(Decode(word).value) == word
  {
    var op := OpcodeOf(Decode(word).value);
    match op
    case RType => CanonicalR(word);
    case Addi => CanonicalAddi(word);
    case Ld => CanonicalLd(word);
    case St => CanonicalSt(word);
    case Beq => CanonicalBranch(word, op);
    case Bne => CanonicalBranch(word, op);
    case Blt => CanonicalBranch(word, op);
    case Bge => CanonicalBranch(word, op);
    case Jal => CanonicalJump(word, op);
    case Jmp => CanonicalJump(word, op);
    case Ecall => CanonicalEcall(word);
  }

  /** No two distinct words decode to the same instruction. */
  lemma DecodeInjective(w1: uint32, w2: uint32)
    requires Decode(w1).Ok? && Decode(w2).Ok?
    ensures Decode(w1) == Decode(w2) <==> w1 == w2
  {
    if Decode(w1) == Decode(w2) {
      Canonical(w1);
      Canonical(w2);
    }
  }

  // ---------------------------------------------------------------------
  // What the decoder rejects
  // ---------------------------------------------------------------------

  /** A register-register word is accepted exactly when its function code is
      1..7; any other code is reported as reserved. */
  lemma RTypeAccepts(word: uint32)
    requires OpcodeBits(word) == Opcode.RType.Value() as uint32
    ensures Decode(word).Ok? <==> 1 <= FunctBits(word) <= 7
    ensures Decode(word).Err? ==> Decode(word) == Err(ReservedFunct(FunctBits(word) as uint16))
  {
    DecodeSelects(word, Opcode.RType);
  }

  /** An add-immediate, load or store word is accepted exactly when bits
      17:14 are zero; otherwise the error names rs2 and the slot's value. */
  lemma MemoryAccepts(word: uint32, op: Opcode)
    requires op == Opcode.Addi || op == Opcode.Ld || op == Opcode.St
    requires OpcodeBits(word) == op.Value() as uint32
    ensures Decode(word).Ok? <==> Rs2Bits(word) == 0
    ensures Decode(word).Err? ==> Decode(word) == Err(ReservedField(Rs2, Rs2Bits(word)))
  {
    DecodeSelects(word, op);
  }

  /** A branch word is accepted exactly when its rd slot is zero; otherwise
      the error names rd and the slot's value. */
  lemma BranchAccepts(word: uint32, op: Opcode)
    requires IsBranchOpcode(op) && OpcodeBits(word) == op.Value() as uint32
    ensures Decode(word).Ok? <==> RdBits(word) == 0
    ensures Decode(word).Err? ==> Decode(word) == Err(ReservedField(Rd, RdBits(word)))
  {
    DecodeSelects(word, op);
  }

  /** An environment-call word is accepted exactly when its three register
      slots are zero; otherwise the error names the first non-zero slot, in
      the order rd, rs1, rs2, with its value. */
  lemma EcallAccepts(word: uint32)
    requires OpcodeBits(word) == Opcode.Ecall.Value() as uint32
    ensures Decode(word).Ok? <==> RdBits(word) == 0 && Rs1Bits(word) == 0 && Rs2Bits(word) == 0
    ensures RdBits(word) != 0 ==> Decode(word) == Err(ReservedField(Rd, RdBits(word)))
    ensures RdBits(word) == 0 && Rs1Bits(word) != 0 ==> Decode(word) == Err(ReservedField(Rs1, Rs1Bits(word)))
    ensures RdBits(word) == 0 && Rs1Bits(word) == 0 && Rs2Bits(word) != 0
            ==> Decode(word) == Err(ReservedField(Rs2, Rs2Bits(word)))
  {
    DecodeSelects(word, Opcode.Ecall);
  }

  /** A jump word is always accepted, whatever its 26-bit field. */
  lemma JumpAccepts(word: uint32, op: Opcode)
    requires (op.Jal? || op.Jmp?) && OpcodeBits(word) == op.Value() as uint32
    ensures Decode(word).Ok?
    ensures Decode(word).value.jumpOffset % 0x400_0000 == Imm26Bits(word) as int
  {
    DecodeSelects(word, op);
  }
}
