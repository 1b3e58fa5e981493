/** The instructions the source's unit tests round-trip
    (src/isa/encoding.rs, tests module), each settled against the model:
    the ones that come back unchanged, and the register-immediate ones that
    the overlap of bits 15:14 turns into an error or into another
    instruction. */
module TestVectors {
  import opened TwosComplement
  import opened Wrappers
  import opened Instructions
  import opened Encoding
  import opened EncodingProofs

  /** The bit pattern of a concrete immediate. */
  lemma PatternOf(x: int16, b: uint16)
    requires b as int == x % 0x1_0000
    ensures I16ToU16(x) == b
  {
    U16Injective(I16ToU16(x), b);
  }

  /** Every register-register vector, `Add r0, r1, r2` included, comes back
      unchanged. */
  lemma RTypeVectorsRoundTrip()
    ensures Decode(Encode(Add(R1, R2, R3))) == Ok(Add(R1, R2, R3))
    ensures Decode(Encode(Sub(R4, R5, R6))) == Ok(Sub(R4, R5, R6))
    ensures Decode(Encode(And(R7, R8, R9))) == Ok(And(R7, R8, R9))
    ensures Decode(Encode(Or(R10, R11, R12))) == Ok(Or(R10, R11, R12))
    ensures Decode(Encode(Xor(R13, R14, R15))) == Ok(Xor(R13, R14, R15))
    ensures Decode(Encode(Shl(R2, R3, R4))) == Ok(Shl(R2, R3, R4))
    ensures Decode(Encode(Shr(R5, R6, R7))) == Ok(Shr(R5, R6, R7))
    ensures Decode(Encode(Add(R0, R1, R2))) == Ok(Add(R0, R1, R2))
  {
    RoundTripR(Add(R1, R2, R3));
    RoundTripR(Sub(R4, R5, R6));
    RoundTripR(And(R7, R8, R9));
    RoundTripR(Or(R10, R11, R12));
    RoundTripR(Xor(R13, R14, R15));
    RoundTripR(Shl(R2, R3, R4));
    RoundTripR(Shr(R5, R6, R7));
    RoundTripR(Add(R0, R1, R2));
  }

  /** The jump vectors, the extreme offset 2^25 - 1 and the sign-extended -1
      and -2 included, come back unchanged. */
  lemma JumpVectorsRoundTrip()
    ensures Decode(Encode(Instr.Jal(12))) == Ok(Instr.Jal(12))
    ensures Decode(Encode(Instr.Jmp(-5))) == Ok(Instr.Jmp(-5))
    ensures Decode(Encode(Instr.Jmp(-1))) == Ok(Instr.Jmp(-1))
    ensures Decode(Encode(Instr.Jal(0x1FF_FFFF))) == Ok(Instr.Jal(0x1FF_FFFF))
    ensures Decode(Encode(Instr.Jal(-2))) == Ok(Instr.Jal(-2))
  {
    RoundTripJump(Instr.Jal(12));
    RoundTripJump(Instr.Jmp(-5));
    RoundTripJump(Instr.Jmp(-1));
    RoundTripJump(Instr.Jal(0x1FF_FFFF));
    RoundTripJump(Instr.Jal(-2));
  }

  /** The register-immediate vectors whose immediate is in 0..0x3FFF come
      back unchanged. */
  lemma SmallImmediateVectorsRoundTrip()
    ensures Decode(Encode(Instr.Addi(R8, R9, 123))) == Ok(Instr.Addi(R8, R9, 123))
    ensures Decode(Encode(Instr.St(R12, R13, 32))) == Ok(Instr.St(R12, R13, 32))
    ensures Decode(Encode(Instr.Ecall(2))) == Ok(Instr.Ecall(2))
  {
    RoundTripAddi(R8, R9, 123);
    RoundTripSt(R12, R13, 32);
    RoundTripEcall(2);
  }

  /** `Addi r1, r2, -1`: the pattern 0xFFFF puts 3 in the rs2 slot. */
  lemma AddiMinusOneRejected()
    ensures Decode(Encode(Instr.Addi(R1, R2, -1))) == Err(ReservedField(Rs2, 3))
  {
    RoundTripAddi(R1, R2, -1);
    PatternOf(-1, 0xFFFF);
  }

  /** `Ld r3, r4, -32768`: the pattern 0x8000 puts 2 in the rs2 slot. */
  lemma LdMinimumRejected()
    ensures Decode(Encode(Instr.Ld(R3, R4, -0x8000))) == Err(ReservedField(Rs2, 2))
  {
    RoundTripLd(R3, R4, -0x8000);
    PatternOf(-0x8000, 0x8000);
  }

  /** `Ld r10, r11, -16`: the pattern 0xFFF0 puts 3 in the rs2 slot. */
  lemma LdMinusSixteenRejected()
    ensures Decode(Encode(Instr.Ld(R10, R11, -16))) == Err(ReservedField(Rs2, 3))
  {
    RoundTripLd(R10, R11, -16);
    PatternOf(-16, 0xFFF0);
  }

  /** The test helper `round_trip`: encodes, decodes and compares. It
      reports whether the instruction came back unchanged, where the source
      panics when it does not. */
  method RoundTrip(instr: Instr) returns (ok: bool)
    requires Encodable(instr)
    ensures ok <==> Survives(instr)
  {
    var word := Encode(instr);
    var decoded := Decode(word);
    ok := decoded == Ok(instr);
    RoundTripIff(instr);
  }

  /** The loop of `round_trip_all_instructions` over a vector list: the index
      of the first instruction that does not come back unchanged, where the
      test panics, or `None` when every instruction comes back. */
  method RoundTripAll(instrs: seq<Instr>) returns (failed: Option<nat>)
    requires forall k :: 0 <= k < |instrs| ==> Encodable(instrs[k])
    ensures failed.None? <==> forall k :: 0 <= k < |instrs| ==> Survives(instrs[k])
    ensures failed.Some? ==> failed.value < |instrs| && !Survives(instrs[failed.value])
    ensures failed.Some? ==> forall k :: 0 <= k < failed.value ==> Survives(instrs[k])
  {
    var i := 0;
    while i < |instrs|
      invariant 0 <= i <= |instrs|
      invariant forall k :: 0 <= k < i ==> Survives(instrs[k])
    {
      var ok := RoundTrip(instrs[i]);
      if !ok {
        return Some(i);
      }
      i := i + 1;
    }
    return None;
  }

  /** The vector list of the test `round_trip_all_instructions`. */
  const AllInstructions: seq<Instr> := [
    Add(R1, R2, R3), Sub(R4, R5, R6), And(R7, R8, R9), Or(R10, R11, R12),
    Xor(R13, R14, R15), Shl(R2, R3, R4), Shr(R5, R6, R7),
    Instr.Addi(R8, R9, 123), Instr.Ld(R10, R11, -16), Instr.St(R12, R13, 32),
    Instr.Beq(R1, R2, 4), Instr.Bne(R3, R4, -8), Instr.Blt(R5, R6, 7), Instr.Bge(R7, R8, -3),
    Instr.Jal(12), Instr.Jmp(-5), Instr.Ecall(2)
  ]

  /** The test `round_trip_all_instructions` stops at its ninth vector,
      `Ld r10, r11, -16`: the eight before it come back and it does not. */
  method RoundTripAllInstructions() returns (failed: Option<nat>)
    ensures failed == Some(8)
  {
    failed := RoundTripAll(AllInstructions);
    assert !Survives(AllInstructions[8]);
    assert forall k :: 0 <= k < 8 ==> Survives(AllInstructions[k]);
  }

  /** `Add r1, r2, r3` is the word with opcode 0, rd 1, rs1 2, rs2 3 and
      function code 1, and that word decodes back to it. */
  lemma AddWord()
    ensures Encode(Add(R1, R2, R3)) == 0x0048_C001
    ensures Decode(0x0048_C001) == Ok(Add(R1, R2, R3))
  {
    RFieldsDetermine(Encode(Add(R1, R2, R3)), 0x0048_C001);
    RoundTripR(Add(R1, R2, R3));
  }

  /** `Jal -1` is opcode 0x08 with all 26 offset bits set, and that word
      decodes back to it. */
  lemma JalMinusOneWord()
    ensures Encode(Instr.Jal(-1)) == 0x23FF_FFFF
    ensures Decode(0x23FF_FFFF) == Ok(Instr.Jal(-1))
  {
    JFieldsDetermine(Encode(Instr.Jal(-1)), 0x23FF_FFFF);
    RoundTripJump(Instr.Jal(-1));
  }

  /** An all-ones 16-bit immediate field sign-extends to -1. */
  lemma AllOnesImm16()
    ensures DecodeImm16(0xFFFF) == -1
  {
    PatternOf(-1, 0xFFFF);
    Imm16Determines(0xFFFF, -1);
  }

  /** A 26-bit offset field with only bit 25 set sign-extends to -2^25, the
      most negative jump offset. */
  lemma SignBitImm26()
    ensures DecodeImm26(0x0200_0000) == -0x200_0000
  {
    CongruentFitsI26(DecodeImm26(0x0200_0000), -0x200_0000);
  }

  // The branch vectors below are passed as a parameter pinned by `requires`
  // rather than written inline: with the instruction a variable, the solver
  // unfolds `Encode` and `Decode` along the helper lemmas' steps instead of
  // evaluating the whole constant expression at once, which is far cheaper.

  /** What a branch vector comes back as, given its offset's bit pattern,
      the register its rs2 reads back as and the offset its bit pattern reads
      back as. */
  lemma BranchComesBackAs(instr: Instr, pattern: uint16, rs2: Register, offset: int16, offsetBits: uint16)
    requires instr.IsBranch() && pattern as int == instr.offset % 0x1_0000
    requires rs2.Index() as uint32 == instr.rs2.Index() as uint32 | (pattern as uint32 >> 14)
    requires offsetBits == pattern | ((instr.rs2.Index() as uint16 & 3) << 14)
    requires offsetBits as int == offset % 0x1_0000
    ensures Decode(Encode(instr)) == MakeBranch(OpcodeOf(instr), instr.rs1, rs2, offset)
  {
    PatternOf(instr.offset, pattern);
    BranchDecodesTo(instr);
    ReadBackAs(Decode(Encode(instr)).value, instr, rs2, offset, offsetBits);
  }

  lemma ReadBackAs(d: Instr, instr: Instr, rs2: Register, offset: int16, offsetBits: uint16)
    requires d.IsBranch() && instr.IsBranch() && OpcodeOf(d) == OpcodeOf(instr) && d.rs1 == instr.rs1
    requires d.rs2.Index() as uint32 == rs2.Index() as uint32
    requires d.offset == U16ToI16(offsetBits)
    requires offsetBits as int == offset % 0x1_0000
    ensures Ok(d) == MakeBranch(OpcodeOf(instr), instr.rs1, rs2, offset)
  {
    IndexInjective(d.rs2, rs2);
    PatternOf(offset, offsetBits);
    I16RoundTrip(offset);
    BranchDetermines(d, MakeBranch(OpcodeOf(instr), instr.rs1, rs2, offset).value);
  }

  /** `Beq r1, r2, 4` comes back with offset -32764: bit 1 of rs2's index
      lands in bit 15 of the offset. */
  lemma BeqFourChanged(instr: Instr)
    requires instr == Instr.Beq(R1, R2, 4)
    ensures Decode(Encode(instr)) == Ok(Instr.Beq(R1, R2, -32764))
  {
    BranchComesBackAs(instr, 0x0004, R2, -32764, 0x8004);
  }

  /** `Bne r3, r4, -8` comes back comparing against r7: the offset's top bits
      land in the rs2 slot. */
  lemma BneMinusEightChanged(instr: Instr)
    requires instr == Instr.Bne(R3, R4, -8)
    ensures Decode(Encode(instr)) == Ok(Instr.Bne(R3, R7, -8))
  {
    BranchComesBackAs(instr, 0xFFF8, R7, -8, 0xFFF8);
  }

  /** `Blt r5, r6, 7` comes back with offset -32761. */
  lemma BltSevenChanged(instr: Instr)
    requires instr == Instr.Blt(R5, R6, 7)
    ensures Decode(Encode(instr)) == Ok(Instr.Blt(R5, R6, -32761))
  {
    BranchComesBackAs(instr, 0x0007, R6, -32761, 0x8007);
  }

  /** `Bge r7, r8, -3` comes back comparing against r11. */
  lemma BgeMinusThreeChanged(instr: Instr)
    requires instr == Instr.Bge(R7, R8, -3)
    ensures Decode(Encode(instr)) == Ok(Instr.Bge(R7, R11, -3))
  {
    BranchComesBackAs(instr, 0xFFFD, R11, -3, 0xFFFD);
  }

  /** `Beq r1, r2, 3`, the branch whose target the offset-scaling test
      computes, comes back with offset -32765 rather than 3. */
  lemma BeqThreeChanged(instr: Instr)
    requires instr == Instr.Beq(R1, R2, 3)
    ensures Decode(Encode(instr)) == Ok(Instr.Beq(R1, R2, -32765))
  {
    BranchComesBackAs(instr, 0x0003, R2, -32765, 0x8003);
  }
}
