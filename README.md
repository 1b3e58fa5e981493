# ember-vcpu instruction codec, in Dafny

This project models the instruction-set layer of ember-vcpu: the register
and opcode catalogs and the 17-form instruction union (`src/isa/instr.rs`),
and the encoder and the validating decoder between instructions and 32-bit
words (`src/isa/encoding.rs`). Both files are pure, so the codec is modelled with
datatypes, functions and lemmas; the unit tests' helper `round_trip` and
the loop over the full vector list are modelled as methods.

Word layout, most significant bit first:

- the opcode is in bits 31:26;
- register-register words hold rd in 25:22, rs1 in 21:18, rs2 in 17:14 and
  a 14-bit function code in 13:0;
- register-immediate words hold the same three register slots and a 16-bit
  two's-complement immediate in 15:0;
- jump words hold a 26-bit two's-complement offset in 25:0.

The register-immediate layout uses 6 + 4 + 4 + 4 + 16 = 34 bits of a
32-bit word. As written, bits 15:14 belong both to the rs2 slot and to the
immediate: the encoder ORs the two fields together, and the decoder reads
both back from the same bits. The model keeps this overlap exactly as the
code has it and proves its consequences:

- register-register and jump instructions survive `Decode(Encode(i))`;
- add-immediate, load, store and environment-call instructions survive it
  exactly when the immediate is in 0..0x3FFF; otherwise the decoder rejects
  the word with `ReservedField(Rs2, top two bits)`;
- a branch always decodes to the same kind of branch, but it survives
  unchanged only when the immediate's top two bits equal the low two bits of
  rs2's index; otherwise rs2 and/or the offset come back altered.

`EncodingProofs.Survives` states this condition in closed form.
`EncodingProofs.RoundTripIff` proves that an instruction comes back from
encode-then-decode unchanged exactly when it `Survives`.

The unit tests (encoding.rs:217-221, 249-251, 255-270 and 298-299) assert
that every vector comes back from `decode(encode(i))` unchanged. The code
does not keep that promise; the model follows the code. The failing vectors
appear in `TestVectors` with what they decode to. The test loop over the full
vector list stops at its ninth vector, `Ld r10, r11, -16`.

The model also proves that every word the decoder accepts is the encoding
of what it decodes to (`Canonical`), so no two accepted words decode to the
same instruction (`DecodeInjective`): the decoder never normalises a word,
it rejects every bit it would not write itself.

Representation choices:

- `u8`/`u16`/`u32` are the bit-vectors `bv8`/`bv16`/`bv32`;
- `i16`/`i32` are bounded integer subset types;
- the `as` casts between them are stated as congruences modulo 2^16 and
  2^32 (`TwosComplement`);
- the field-name strings of `DecodeError` are the enumeration `Field`;
- the layout constants appear as literals in the bit expressions, and the
  function codes as named constants.

Files:

- `wrappers.dfy`: `Option` and `Result`;
- `twos_complement.dfy`: integer widths and casts;
- `instr.dfy`: `Register`, `Opcode` and `Instr`;
- `encoding.dfy`: the encoder and the decoder;
- `encoding_proofs.dfy`: round trips, canonicality and rejection rules;
- `test_vectors.dfy`: the unit tests' instructions, each settled.

## Model

| member | source | states |
|---|---|---|
| Instructions.Register.Index | src/isa/instr.rs:22-41 | a register's index fits 4 bits (below 16) |
| Instructions.Register.FromU8 | src/isa/instr.rs:43-63 | a register exists for a byte exactly when it is below 16, and its index is that byte |
| Instructions.IndexRoundTrip | src/isa/instr.rs:22-63 | looking a register up by its own index gives it back |
| Instructions.IndexInjective | src/isa/instr.rs:22-41 | two registers have the same index exactly when they are the same register |
| Instructions.Opcode.Value | src/isa/instr.rs:66-80 | an opcode's discriminant is at most 0x0A |
| Instructions.Opcode.FromU8 | src/isa/instr.rs:82-98 | an opcode exists for a byte exactly when it is at most 0x0A, and its discriminant is that byte |
| Instructions.ValueRoundTrip | src/isa/instr.rs:66-98 | looking an opcode up by its own discriminant gives it back |
| Instructions.ValueInjective | src/isa/instr.rs:66-80 | discriminants fit the 6-bit opcode field and are equal exactly when the opcodes are |
| Encoding.Encode | src/isa/encoding.rs:36-56 | a register-register instruction's word carries its function code in bits 13:0 (per-family opcode and field facts are in the lemmas below) |
| EncodingProofs.EncodeOpcode | src/isa/encoding.rs:36-56 | every instruction's word carries its family's opcode in bits 31:26: 0 for register-register forms, the form's own discriminant otherwise |
| Encoding.EncodeR | src/isa/encoding.rs:77-84 | opcode 0, rd, rs1, rs2 and the function code each read back from their own bits |
| Encoding.EncodeI | src/isa/encoding.rs:86-94 | the opcode, rd and rs1 slots read back as written |
| Encoding.EncodeIRs2 | src/isa/encoding.rs:86-94 | the rs2 slot reads back as rs2's index ORed with the immediate's top two bits |
| Encoding.EncodeIImm | src/isa/encoding.rs:86-94 | the low half-word reads back as the immediate's pattern with rs2's low two bits ORed into bits 15:14 |
| Encoding.EncodeJ | src/isa/encoding.rs:96-101 | the opcode reads back, and bits 25:0 hold the offset modulo 2^26 |
| Encoding.Decode | src/isa/encoding.rs:58-75 | an opcode field above 0x0A is rejected as `ReservedOpcode` with that value and only then; `InvalidRegister` is never returned; an accepted word decodes to an instruction of the family its opcode field names |
| EncodingProofs.DecodeSelects | src/isa/encoding.rs:58-75 | each opcode hands the word to its own decoder |
| Encoding.DecodeR | src/isa/encoding.rs:103-119 | accepted exactly when the function code is 1..7, else `ReservedFunct(code)`; the result's function code and three registers are those in the word |
| Encoding.DecodeIAddi | src/isa/encoding.rs:121-128 | accepted exactly when the rs2 slot is zero, else `ReservedField(Rs2, slot)`; rd, rs1 and the immediate are those in the word |
| Encoding.DecodeILd | src/isa/encoding.rs:130-137 | accepted exactly when the rs2 slot is zero, else `ReservedField(Rs2, slot)`; rd, base and offset are those in the word |
| Encoding.DecodeISt | src/isa/encoding.rs:139-146 | accepted exactly when the rs2 slot is zero, else `ReservedField(Rs2, slot)`; the stored register comes from the rd slot |
| Encoding.DecodeIBranch | src/isa/encoding.rs:148-162 | a non-zero rd slot gives `ReservedField(Rd, slot)`, a non-branch opcode `ReservedOpcode`; otherwise the branch the opcode names with rs1, rs2 and offset from the word |
| Encoding.MakeBranch | src/isa/encoding.rs:155-161 | the four branch opcodes select their branch form; any other opcode is `ReservedOpcode` |
| Encoding.DecodeJ | src/isa/encoding.rs:164-171 | Jal and Jmp always decode, to an offset that fits 26 signed bits and agrees with bits 25:0 modulo 2^26 |
| Encoding.DecodeIEcall | src/isa/encoding.rs:173-182 | rd, then rs1, then rs2 must be zero, the first non-zero one is reported; otherwise the call code is the immediate in the word |
| Encoding.DecodeReg | src/isa/encoding.rs:184-187 | reading a 4-bit register slot always succeeds, with the register whose index is the slot's value |
| Encoding.DecodeImm16 | src/isa/encoding.rs:189-192 | the immediate's bit pattern is the word's low half-word |
| Encoding.DecodeImm26 | src/isa/encoding.rs:194-197 | the offset fits 26 signed bits and agrees with bits 25:0 modulo 2^26 |
| Encoding.SignExtend26 | src/isa/encoding.rs:194-197 | the `i32` holding the field shifted left by 6, arithmetically shifted right by 6, fits 26 signed bits and agrees with the field modulo 2^26 |
| Encoding.RequireZero | src/isa/encoding.rs:199-205 | succeeds exactly on zero, otherwise names the slot and its value |
| EncodingProofs.RoundTripR | src/isa/encoding.rs:103-119 | every register-register instruction survives encode then decode |
| EncodingProofs.RoundTripJump | src/isa/encoding.rs:164-171 | every jump whose offset fits 26 signed bits survives encode then decode |
| Encoding.FitsI26 | src/isa/encoding.rs:207-210 | an offset fits exactly when keeping its low 26 bits and reading them as a signed number gives it back, that is when -2^25 <= value < 2^25; it is the jump precondition, and `DecodeImm26` establishes it |
| TwosComplement.I16ToU16 | src/isa/encoding.rs:88 | `imm as u16` is the immediate modulo 2^16 |
| TwosComplement.U16ToI16 | src/isa/encoding.rs:191 | `raw as i16` is the `i16` congruent to the half-word modulo 2^16 |
| TwosComplement.I32ToU32 | src/isa/encoding.rs:99 | `imm as u32` is the offset modulo 2^32 |
| TwosComplement.U32ToI32 | src/isa/encoding.rs:196 | `(raw << 6) as i32` is the `i32` congruent to the word modulo 2^32 |
| EncodingProofs.CongruentFitsI26 | src/isa/encoding.rs:207-210 | two offsets within the 26-bit range that agree modulo 2^26 are equal |
| EncodingProofs.ImmTopBits | src/isa/encoding.rs:86-94 | an immediate's top two bits are zero exactly when it is in 0..0x3FFF |
| EncodingProofs.Imm16Determines | src/isa/encoding.rs:189-192 | the immediate is recovered from its bit pattern |
| EncodingProofs.RoundTripAddi | src/isa/encoding.rs:121-128 | an add-immediate comes back unchanged when its immediate is in 0..0x3FFF, and is otherwise rejected as `ReservedField(Rs2, top two bits)` |
| EncodingProofs.RoundTripLd | src/isa/encoding.rs:130-137 | a load comes back unchanged when its offset is in 0..0x3FFF, and is otherwise rejected as `ReservedField(Rs2, top two bits)` |
| EncodingProofs.RoundTripSt | src/isa/encoding.rs:139-146 | a store comes back unchanged when its offset is in 0..0x3FFF, and is otherwise rejected as `ReservedField(Rs2, top two bits)` |
| EncodingProofs.RoundTripEcall | src/isa/encoding.rs:173-182 | an environment call comes back unchanged when its code is in 0..0x3FFF, and is otherwise rejected as `ReservedField(Rs2, top two bits)` |
| EncodingProofs.BranchWord | src/isa/encoding.rs:47-50 | a branch is encoded with R0 in the rd slot and its own rs1, rs2 and offset |
| EncodingProofs.BranchWordRs2 | src/isa/encoding.rs:148-162 | a branch word's rs2 comes back as the index ORed with the offset's top two bits |
| EncodingProofs.BranchWordOffset | src/isa/encoding.rs:148-162 | a branch word's offset comes back with rs2's low two bits ORed into bits 15:14 |
| EncodingProofs.ImmOverlaid | src/isa/encoding.rs:86-94 | the immediate read back from any register-immediate word is the written one with rs2's low two bits ORed into bits 15:14 |
| EncodingProofs.BranchDecodesTo | src/isa/encoding.rs:148-162 | a branch always decodes, to the same kind of branch on the same rs1, with rs2 and the offset overlaid |
| EncodingProofs.RoundTripBranch | src/isa/encoding.rs:148-162 | a branch comes back unchanged exactly when its offset's top two bits equal rs2's low two index bits |
| EncodingProofs.RoundTripIff | src/isa/encoding.rs:36-75 | an encodable instruction comes back from encode-then-decode unchanged exactly when it `Survives`: any register-register or jump instruction, an add-immediate, load, store or environment call with immediate in 0..0x3FFF, a branch whose offset's top two bits equal rs2's index modulo 4 |
| EncodingProofs.BranchSurvives | src/isa/encoding.rs:86-94 | for a branch, the bit-level agreement of the shared bits is the arithmetic condition of `Survives` |
| EncodingProofs.TopBitsValue | src/isa/encoding.rs:86-94 | bits 15:14 of an immediate's pattern, as a number, are its residue modulo 2^16 divided by 2^14 |
| EncodingProofs.BranchReadBack | src/isa/encoding.rs:148-162 | an overlaid read-back equals the original branch exactly when the shared bits agree |
| EncodingProofs.RFieldsDetermine | src/isa/encoding.rs:77-84 | a register-register word is determined by its five fields |
| EncodingProofs.IFieldsDetermine | src/isa/encoding.rs:86-94 | a register-immediate word is determined by its opcode, register slots and low half-word |
| EncodingProofs.JFieldsDetermine | src/isa/encoding.rs:96-101 | a jump word is determined by its opcode and bits 25:0 |
| EncodingProofs.CanonicalR | src/isa/encoding.rs:103-119 | an accepted register-register word is the encoding of what it decodes to |
| EncodingProofs.CanonicalAddi | src/isa/encoding.rs:121-128 | an accepted add-immediate word is the encoding of what it decodes to |
| EncodingProofs.CanonicalLd | src/isa/encoding.rs:130-137 | an accepted load word is the encoding of what it decodes to |
| EncodingProofs.CanonicalSt | src/isa/encoding.rs:139-146 | an accepted store word is the encoding of what it decodes to |
| EncodingProofs.CanonicalEcall | src/isa/encoding.rs:173-182 | an accepted environment-call word is the encoding of what it decodes to |
| EncodingProofs.CanonicalBranch | src/isa/encoding.rs:148-162 | an accepted branch word is the encoding of what it decodes to |
| EncodingProofs.CanonicalJump | src/isa/encoding.rs:164-171 | an accepted jump word is the encoding of what it decodes to |
| EncodingProofs.Canonical | src/isa/encoding.rs:58-75 | every accepted word is encodable and is the encoding of what it decodes to |
| EncodingProofs.DecodeInjective | src/isa/encoding.rs:58-75 | two accepted words decode to the same instruction exactly when they are the same word |
| EncodingProofs.RTypeAccepts | src/isa/encoding.rs:103-119 | with opcode 0 the decoder accepts exactly the function codes 1..7, and rejects the rest as `ReservedFunct` |
| EncodingProofs.MemoryAccepts | src/isa/encoding.rs:121-146 | add-immediate, load and store words are accepted exactly when the rs2 slot is zero, and are otherwise rejected as `ReservedField(Rs2, slot)` |
| EncodingProofs.BranchAccepts | src/isa/encoding.rs:148-153 | branch words are accepted exactly when the rd slot is zero, and are otherwise rejected as `ReservedField(Rd, slot)` |
| EncodingProofs.EcallAccepts | src/isa/encoding.rs:173-182 | environment-call words are accepted exactly when all three register slots are zero; rd, rs1 and rs2 are checked in that order |
| EncodingProofs.JumpAccepts | src/isa/encoding.rs:164-171 | jump words are always accepted, with an offset that agrees with bits 25:0 |
| TestVectors.RoundTrip | src/isa/encoding.rs:217-221 | the helper reports success exactly when the instruction `Survives`, so exactly when decode returns it unchanged |
| TestVectors.RoundTripAll | src/isa/encoding.rs:249-251 | the loop reports no failure exactly when every instruction survives; otherwise it reports the first instruction that does not survive |
| TestVectors.RoundTripAllInstructions | src/isa/encoding.rs:228-252 | on the test's vector list the loop stops at index 8, `Ld r10, r11, -16` |
| TestVectors.RTypeVectorsRoundTrip | src/isa/encoding.rs:229-236 | the seven register-register vectors come back unchanged |
| TestVectors.SmallImmediateVectorsRoundTrip | src/isa/encoding.rs:237-246 | `Addi r8, r9, 123`, `St r12, r13, 32` and `Ecall 2` come back unchanged |
| TestVectors.LdMinusSixteenRejected | src/isa/encoding.rs:238 | `Ld r10, r11, -16` is rejected as `ReservedField(Rs2, 3)` instead of coming back |
| TestVectors.BeqFourChanged | src/isa/encoding.rs:240 | `Beq r1, r2, 4` comes back as `Beq r1, r2, -32764` |
| TestVectors.BneMinusEightChanged | src/isa/encoding.rs:241 | `Bne r3, r4, -8` comes back as `Bne r3, r7, -8` |
| TestVectors.BltSevenChanged | src/isa/encoding.rs:242 | `Blt r5, r6, 7` comes back as `Blt r5, r6, -32761` |
| TestVectors.BgeMinusThreeChanged | src/isa/encoding.rs:243 | `Bge r7, r8, -3` comes back as `Bge r7, r11, -3` |
| TestVectors.JumpVectorsRoundTrip | src/isa/encoding.rs:263-270 | the jump vectors, including offsets -1, -2 and 2^25 - 1, come back unchanged |
| TestVectors.AddiMinusOneRejected | src/isa/encoding.rs:255-257 | `Addi r1, r2, -1` is rejected as `ReservedField(Rs2, 3)` instead of coming back |
| TestVectors.LdMinimumRejected | src/isa/encoding.rs:259-260 | `Ld r3, r4, -32768` is rejected as `ReservedField(Rs2, 2)` instead of coming back |
| TestVectors.BeqThreeChanged | src/isa/encoding.rs:272-283 | the offset-scaling test's `Beq r1, r2, 3` comes back with offset -32765, not 3 |
| TestVectors.AddWord | src/isa/encoding.rs:77-84 | `Add r1, r2, r3` encodes to 0x0048_C001 (opcode 0, rd 1, rs1 2, rs2 3, function code 1), and that word decodes back to it |
| TestVectors.JalMinusOneWord | src/isa/encoding.rs:96-101 | `Jal -1` encodes to 0x23FF_FFFF (opcode 0x08, all 26 offset bits set), and that word decodes back to it |
| TestVectors.AllOnesImm16 | src/isa/encoding.rs:189-192 | an immediate field of 0xFFFF sign-extends to -1 |
| TestVectors.SignBitImm26 | src/isa/encoding.rs:194-197 | an offset field with only bit 25 set sign-extends to -2^25 |
| TwosComplement.I16RoundTrip | src/isa/encoding.rs:86-94 | reinterpreting an `i16` as `u16` and back gives it back |
| TwosComplement.U16RoundTrip | src/isa/encoding.rs:189-192 | reinterpreting a `u16` as `i16` and back gives it back |
| TwosComplement.I32RoundTrip | src/isa/encoding.rs:96-101 | reinterpreting an `i32` as `u32` and back gives it back |
| TwosComplement.U32RoundTrip | src/isa/encoding.rs:194-197 | reinterpreting a `u32` as `i32` and back gives it back |

## Left out

- `src/isa/mod.rs` only re-exports the two modules; it is not part of this model.
- The test helper `pc_relative_target` (encoding.rs:223-225) computes branch targets outside the codec; it is not modelled. `TestVectors.BeqThreeChanged` and `JumpVectorsRoundTrip` settle what the offset-scaling test decodes, not the target arithmetic.
- A panic in the test helper `round_trip`, from `expect` or `assert_eq!`, is modelled as the result `false`. The loop then stops and returns the failing index rather than aborting the test. The other tests are modelled as one lemma per vector or group of vectors.
- The derived traits (`Clone`, `Copy`, `Debug`, `Eq`, `PartialEq`) are not modelled; Dafny datatypes have structural equality.
- Encoding.Encode: `encode_j` checks that a jump offset fits 26 bits only with `debug_assert!`; the model makes that a precondition (`Encodable`). What a release build does with an oversized offset is not modelled: it silently truncates the offset to 26 bits.
- Encoding.Encode: its own contract states only the function-code fact. The opcode of every form is stated by the lemma `EncodeOpcode`, and the field facts per family in `EncodeR`, `EncodeI`, `EncodeJ` and the round-trip lemmas, because one contract covering all fields of all 17 forms is too costly for the solver.
- `DecodeError`'s `&'static str` field names are modelled as the enumeration `Field`. The `value` of `InvalidRegister` is named `raw`, because the datatype already has a `value` destructor of another type.
- The jump forms' `offset` field is named `jumpOffset`, because a Dafny field name must have one type across constructors: it is `i32` for jumps and `i16` elsewhere.
- `Opcode::from_u8(..).ok_or(..)?` in `decode` is modelled as a `match` on the looked-up opcode. The behaviour is the same.
- The layout constants `OPCODE_SHIFT` … `IMM26_MASK` appear as literals in the bit expressions rather than as named constants.
