/** The register and opcode catalogs and the instruction union
    (src/isa/instr.rs). */
module Instructions {
  import opened TwosComplement
  import opened Wrappers

  /** The 16 architectural registers. */
  datatype Register =
    | R0 | R1 | R2 | R3 | R4 | R5 | R6 | R7
    | R8 | R9 | R10 | R11 | R12 | R13 | R14 | R15
  {
    /** The register's 4-bit index. */
    function Index(): (i: uint8)
      ensures i < 16
    {
      match this
      case R0 => 0
      case R1 => 1
      case R2 => 2
      case R3 => 3
      case R4 => 4
      case R5 => 5
      case R6 => 6
      case R7 => 7
      case R8 => 8
      case R9 => 9
      case R10 => 10
      case R11 => 11
      case R12 => 12
      case R13 => 13
      case R14 => 14
      case R15 => 15
    }

    /** The register with index `value`, if there is one. */
    static function FromU8(value: uint8): (r: Option<Register>)
      ensures r.Some? <==> value < 16
      ensures r.Some? ==> r.value.Index() == value
    {
      match value
      case 0 => Some(R0)
      case 1 => Some(R1)
      case 2 => Some(R2)
      case 3 => Some(R3)
      case 4 => Some(R4)
      case 5 => Some(R5)
      case 6 => Some(R6)
      case 7 => Some(R7)
      case 8 => Some(R8)
      case 9 => Some(R9)
      case 10 => Some(R10)
      case 11 => Some(R11)
      case 12 => Some(R12)
      case 13 => Some(R13)
      case 14 => Some(R14)
      case 15 => Some(R15)
      case _ => None
    }
  }

  /** Looking a register up by its own index gives it back. */
  lemma IndexRoundTrip(r: Register)
    ensures Register.FromU8(r.Index()) == Some(r)
  {
  }

  /** No two registers share an index, so the catalog is a bijection with 0..15. */
  lemma IndexInjective(r1: Register, r2: Register)
    ensures r1.Index() == r2.Index() <==> r1 == r2
  {
    IndexRoundTrip(r1);
    IndexRoundTrip(r2);
  }

  /** The 11 primary opcodes; every other 6-bit value is reserved. */
  datatype Opcode =
    | RType | Addi | Ld | St | Beq | Bne | Blt | Bge | Jal | Jmp | Ecall
  {
    /** The opcode's discriminant (`op as u8`). */
    function Value(): (v: uint8)
      ensures v <= 0x0A
    {
      match this
      case RType => 0x00
      case Addi => 0x01
      case Ld => 0x02
      case St => 0x03
      case Beq => 0x04
      case Bne => 0x05
      case Blt => 0x06
      case Bge => 0x07
      case Jal => 0x08
      case Jmp => 0x09
      case Ecall => 0x0A
    }

    /** The opcode whose discriminant is `value`, if there is one. */
    static function FromU8(value: uint8): (r: Option<Opcode>)
      ensures r.Some? <==> value <= 0x0A
      ensures r.Some? ==> r.value.Value() == value
    {
      match value
      case 0x00 => Some(Opcode.RType)
      case 0x01 => Some(Opcode.Addi)
      case 0x02 => Some(Opcode.Ld)
      case 0x03 => Some(Opcode.St)
      case 0x04 => Some(Opcode.Beq)
      case 0x05 => Some(Opcode.Bne)
      case 0x06 => Some(Opcode.Blt)
      case 0x07 => Some(Opcode.Bge)
      case 0x08 => Some(Opcode.Jal)
      case 0x09 => Some(Opcode.Jmp)
      case 0x0A => Some(Opcode.Ecall)
      case _ => None
    }
  }

  /** Looking an opcode up by its own discriminant gives it back. */
  lemma ValueRoundTrip(op: Opcode)
    ensures Opcode.FromU8(op.Value()) == Some(op)
  {
  }

  /** Distinct opcodes have distinct discriminants, all of which fit the
      6-bit opcode field. */
  lemma ValueInjective(op1: Opcode, op2: Opcode)
    ensures op1.Value() < 64
    ensures op1.Value() == op2.Value() <==> op1 == op2
  {
    ValueRoundTrip(op1);
    ValueRoundTrip(op2);
  }

  /** The closed union of the 17 instruction forms. The jump forms' field is
      named `jumpOffset` because a Dafny destructor shared by several
      constructors must have one type, and the source's `offset` is an `i16`
      in the memory and branch forms but an `i32` in the jump forms. */
  datatype Instr =
    | Add(rd: Register, rs1: Register, rs2: Register)
    | Sub(rd: Register, rs1: Register, rs2: Register)
    | And(rd: Register, rs1: Register, rs2: Register)
    | Or(rd: Register, rs1: Register, rs2: Register)
    | Xor(rd: Register, rs1: Register, rs2: Register)
    | Shl(rd: Register, rs1: Register, rs2: Register)
    | Shr(rd: Register, rs1: Register, rs2: Register)
    | Addi(rd: Register, rs1: Register, imm: int16)
    | Ld(rd: Register, base: Register, offset: int16)
    | St(rs: Register, base: Register, offset: int16)
    | Beq(rs1: Register, rs2: Register, offset: int16)
    | Bne(rs1: Register, rs2: Register, offset: int16)
    | Blt(rs1: Register, rs2: Register, offset: int16)
    | Bge(rs1: Register, rs2: Register, offset: int16)
    | Jal(jumpOffset: int32)
    | Jmp(jumpOffset: int32)
    | Ecall(imm: int16)
  {
    /** The register-register forms. */
    predicate IsRType() {
      Add? || Sub? || And? || Or? || Xor? || Shl? || Shr?
    }

    /** The branch forms. */
    predicate IsBranch() {
      Beq? || Bne? || Blt? || Bge?
    }
  }
}
