# RV32I simulator core in Dafny

This project models the core of a small RISC-V RV32I simulator written in C,
and proves properties of that model. The core covers:

- the register file: 32 registers, x0 hard-wired to zero, the PC, and the
  ABI register names;
- the instruction vocabulary: the opcode, funct3 and funct7 values, their
  names, and the per-format field records;
- the modular decoder: field extractors, immediate reconstruction,
  opcode classification and filling the record;
- the stand-alone flat decoder `decode_riscv`;
- the executor: the R-type ALU, the branch and jump stubs, and the dispatcher;
- the byte-addressed memory: signed and unsigned loads, and stores;
- the derivation of the register dump file name.

Words are `uint32` values, which are integers in `0 .. 2^32-1`. The C
operators `&`, `|`, `^`, `<<`, `>>` and the casts between `uint32_t`,
`int32_t`, `int16_t` and `int8_t` are written out in module `Bits`. The
function bodies follow the C expressions. The contracts state what the
results mean: which bits of the word a field holds, the sign-extended value
of an immediate, and the arithmetic an ALU operation performs.

An encoder (`Encode.Encode`) is the independent partner of the modular
decoder. The round-trip lemmas show the following:

- decoding an encoded record gives the record back;
- encoding a decoded word gives the word back, for every word whose opcode
  is named.

The immediates are measured against the bit layouts of section 2.3 of the
RISC-V Unprivileged ISA specification ("Immediate Encoding Variants").

Modules: `Bits`, `Registers`, `Instruction`, `Fields`, `Decode`, `Encode`,
`Decoder`, `Execute`, `Memory`, `DumpFilename`.

Points where the model had to choose:

- **Operation names.** `src/execute.c` switches on `F3_ADD_SUB`, `F3_SLL`,
  …, `F7_SUB` and `F7_SRA`. `include/instruction.h` gives these names only
  in comments (lines 37-46 and 59-71); its enums are named `F3_000` …
  `F3_111`, `F7_0000000` and `F7_0100000`. The model gives each name the
  value written in its comment.
- **SYSTEM immediates.** The two decoders disagree on SYSTEM words.
  - `src/decode.c` classifies opcode 0x73 as I-type and sign-extends bits
    [31:20].
  - `decoder.c` leaves the immediate 0.
  - `Decoder.SystemImmediates` states exactly when the two differ.
- **Unreachable `-1` in `handleRType`.** Its `default: return -1` cannot be
  reached, because all eight funct3 values have a case. `executeInstruction`
  also ignores the handlers' return values. The model returns 0 for R, B and
  J, and -1 only for an unknown class.
- **C shift semantics.** `>>` on a negative `int32_t` is taken as an
  arithmetic shift (`Bits.Asr`, floor division by 2^k). In `loadW`,
  `mem->data[addr + 3] << 24` is computed on a promoted `int`; the model
  takes the intended unsigned result.
- **Dump file name.** The comments in `src/register.c` promise
  "<basename>-answer.res" (line 10) and call the cut "Strip ext" (line 12).
  The code cuts at the last '.' anywhere in the path, directories included,
  and the model follows the code. See "## Findings".

## Model

| member | source | states |
|---|---|---|
| Registers.RegName | include/registers.h:51-59 | the name table has one entry per register; "ZERO" names exactly x0; x8 is "S0/FP"; A0-A7 and T0-T6 carry their index digit |
| Registers.RegisterFile.constructor | include/registers.h:6-12 | 32 registers and the PC, all zero at start; x0 holds zero (`Valid`) |
| Instruction.Funct3Name | include/instruction.h:77-135 | every funct3 has a name under NONIMM and IMM; LOAD and STORE name only funct3 010 (LW/SW); BRANCH is "UNKNOWN" exactly for 010 and 011; other opcodes are "UNKNOWN" |
| Instruction.Funct7Name | include/instruction.h:136-148 | under NONIMM, funct7 0100000 selects SUB/SRA and anything else ADD/SRL; other funct3 give "STANDARD"; other opcodes give "UNUSED" |
| Instruction.OpcodeName | include/instruction.h:149-174 | "UNKNOWN" exactly for the 118 unnamed opcodes; each of the ten named opcodes (LOAD, IMM, AUIPC, STORE, BRANCH, JALR, NONIMM, LUI, JAL, SYSTEM) gets its own name, and only it |
| Bits.Asr | src/execute.c:29 | `(int32_t)x >> k` is floor division by 2^k |
| Fields.GetOpcode | include/decode.h:28 | the opcode is bits [6:0] |
| Fields.GetRd | include/decode.h:29 | rd is bits [11:7] |
| Fields.GetFunct3 | include/decode.h:30 | funct3 is bits [14:12] |
| Fields.GetRs1 | include/decode.h:31 | rs1 is bits [19:15] |
| Fields.GetRs2 | include/decode.h:32 | rs2 is bits [24:20] |
| Fields.GetFunct7 | include/decode.h:33 | funct7 is bits [31:25] |
| Fields.GetImmIFormat | include/decode.h:37-40 | the I immediate is w[31:20] sign-extended from 12 bits; it lies in [-2048, 2048) and is negative exactly when bit 31 is set |
| Fields.GetImmSFormat | include/decode.h:43-48 | the S immediate is w[31:25]:w[11:7] sign-extended from 12 bits; same range and sign facts |
| Fields.GetImmUFormat | include/decode.h:50-53 | the U immediate is the word with its low 12 bits cleared, read as `int32_t`; it is a multiple of 4096 |
| Fields.GetImmBFormat | include/decode.h:56-64 | the B immediate is the 13-bit pattern imm[12\|11\|10:5\|4:1\|0] sign-extended; it is even, lies in [-4096, 4096), and is negative exactly when bit 31 is set |
| Fields.GetImmJFormat | include/decode.h:67-75 | the J immediate is the 21-bit pattern imm[20\|19:12\|11\|10:1\|0] sign-extended; it is even, lies in [-2^20, 2^20), and is negative exactly when bit 31 is set |
| Decode.GetInstructionType | src/decode.c:5-30 | R exactly for NONIMM; I exactly for LOAD, IMM, JALR and SYSTEM; S for STORE; U for AUIPC and LUI; B for BRANCH; J for JAL; unknown exactly for the unnamed opcodes |
| Decode.GetRelevantFields | src/decode.c:32-80 | the record variant matches the class; rd, rs1, rs2, funct3 and funct7 of each variant that has them are bits [11:7], [19:15], [24:20], [14:12] and [31:25] of the word; each immediate is its format's pattern sign-extended and lies in the format's range |
| Decode.DecodeInstruction | src/decode.c:144-156 | opcode from bits [6:0], class from the opcode, and a well-formed record |
| Encode.AssembleFields | include/decode.h:28-33 | each extractor reads back the field placed at its bits |
| Encode.Partition | include/decode.h:28-33 | the six raw fields reassemble to the whole word |
| Encode.DecodeEncode | src/decode.c:144-156 | decoding the encoding of any well-formed record of a known class gives the record back |
| Encode.EncodeDecode | src/decode.c:144-156 | every word with a named opcode decodes to a known class, and encoding its record gives the word back |
| Decoder.RiscvImmI | decoder.c:20-24 | `(int32_t)instr >> 20` is w[31:20] sign-extended from 12 bits |
| Decoder.RiscvImmS | decoder.c:25-31 | the ORed S fields, with bits 31..12 set when bit 11 is, are the S pattern sign-extended |
| Decoder.RiscvImmB | decoder.c:32-40 | the ORed B fields, with bits 31..13 set when bit 12 is, are the B pattern sign-extended |
| Decoder.RiscvImmU | decoder.c:41-44 | `instr & 0xFFFFF000` read as `int32_t` holds the U pattern |
| Decoder.RiscvImmJ | decoder.c:45-53 | the ORed J fields, with bits 31..21 set when bit 20 is, are the J pattern sign-extended |
| Decoder.DecodeRiscv | decoder.c:8-59 | the six raw fields from their bit ranges; the immediate of the format the opcode selects; 0 for any other opcode |
| Decoder.DecodersAgree | decoder.c:8-59 | outside SYSTEM the flat decoder and the modular one agree on every field and immediate of the record's format; the immediate is 0 for R-type and unknown opcodes |
| Decoder.SystemImmediates | decoder.c:54-55 | on SYSTEM words the flat decoder gives immediate 0 and the modular one gives the sign-extended I immediate; they agree exactly when bits [31:20] are clear |
| Execute.AluR | src/execute.c:9-40 | ADD/SUB are addition/subtraction modulo 2^32; SLT is 1 exactly when the `int32_t` readings are ordered, SLTU exactly when the words are, and both are 0 otherwise; SLL multiplies by 2^(rs2 mod 32) modulo 2^32; SRL divides by it |
| Execute.AddSubSigned | src/execute.c:10-14 | ADD/SUB on `uint32_t` is two's complement addition/subtraction of the `int32_t` readings, and is exact when the result fits in 32 bits |
| Execute.SubThenAdd | src/execute.c:10-14 | SUB followed by ADD of the same operand gives the first operand back |
| Execute.ShiftSemantics | src/execute.c:15-31 | with amount rs2 mod 32: SLL multiplies by 2^amount mod 2^32; SRL divides; SRA divides the `int32_t` reading, rounding down |
| Execute.CompareSemantics | src/execute.c:18-23 | SLT is the signed comparison (the unsigned one with bit 31 flipped) and equals SLTU when the signs agree; SLTU is 1 exactly when a < b |
| Execute.BitwiseSemantics | src/execute.c:24-37 | XOR, OR and AND act bit by bit |
| Execute.HandleRType | src/execute.c:4-47 | rd receives the ALU result of the old rs1 and rs2; nothing else changes; x0 stays zero; status 0 |
| Execute.HandleBType | src/execute.c:49 | the branch stub reports success |
| Execute.HandleJType | src/execute.c:50 | the jump stub reports success |
| Execute.ExecuteInstruction | src/execute.c:52-76 | status -1 exactly for an unknown class; R updates registers as `HandleRType` does; B, J and unknown leave the registers alone; x0 stays zero |
| Memory.LoadB | src/memory.c:4-7 | the byte sign-extended to 32 bits: its low byte is the stored byte, and the upper 24 bits are ones exactly when bit 7 is set |
| Memory.LoadHW | src/memory.c:9-12 | the little-endian halfword sign-extended to 32 bits |
| Memory.LoadW | src/memory.c:14-19 | the little-endian value of the four bytes at addr |
| Memory.LoadBU | src/memory.c:21-24 | the byte at addr, zero-extended |
| Memory.LoadHWU | src/memory.c:26-29 | the little-endian value of the two bytes at addr, zero-extended |
| Memory.StoreByte | src/memory.c:31-33 | the byte at addr is replaced; nothing else changes |
| Memory.StoreHalfword | src/memory.c:35-38 | the two little-endian bytes of the value replace the memory at addr; nothing else changes |
| Memory.StoreWord | src/memory.c:40-45 | the four little-endian bytes of the value replace the memory at addr; nothing else changes |
| Memory.LittleEndianBytes | src/memory.c:40-45 | reading back the n low bytes of a value gives the value mod 2^(8n) |
| Memory.BytesLittleEndian | src/memory.c:14-19 | splitting the value of a byte string into bytes gives the string back |
| Memory.LittleEndianBound | src/memory.c:14-19 | n bytes hold a value below 2^(8n) |
| Memory.StoreWordLoadWord | src/memory.c:40-45 | `loadW` after `storeWord` at the same address returns the stored word |
| Memory.StoreHalfwordLoadHalfword | src/memory.c:35-38 | after `storeHalfword`, `loadHWU` returns the halfword and `loadHW` its sign extension |
| Memory.StoreByteLoadByte | src/memory.c:31-33 | after `storeByte`, `loadBU` returns the byte and `loadB` its sign extension |
| Memory.StoreFrameLoadWord | src/memory.c:14-19 | a store that does not overlap a word leaves `loadW` of that word unchanged |
| DumpFilename.LastIndex | src/register.c:12 | `strrchr`: none exactly when the character is absent; otherwise its position, with no later occurrence |
| DumpFilename.MakeDumpFilename | src/register.c:11-37 | none exactly when the allocation fails; otherwise a prefix of the input cut at its last '.', or the whole input if there is none, followed by "-answer.res" |
| DumpFilename.DumpNameUnique | src/register.c:11-37 | that description determines the name |
| DumpFilename.NoExtensionKept | src/register.c:15-19 | an input without '.' is kept whole |
| DumpFilename.OneExtensionStripped | src/register.c:12-16 | only the text from the last '.' on is removed |
| DumpFilename.DotInDirectory | src/register.c:12-16 | "../tests/add" gives ".-answer.res": the directory part is lost |
| DumpFilename.MakeDumpFilenameInDirectory | src/register.c:10-19 | corrected name: the same as the original when the file has an extension; the whole path plus the suffix otherwise |
| DumpFilename.KeepsDirectory | src/register.c:10-19 | the corrected name keeps every directory of the path |

## Left out

- The simulation loop, image loading and exit codes (`main.c`): file I/O and process control.
- `debugPrintInstructionFields` (src/decode.c:82-141): printing only.
- `dumpRegisterContents` and `dumpRegisterContentsFile` (src/register.c:3-8, 39-63): printing and writing a file.
- `handleIType`, `handleSType` and `handleUType` are declared in include/execute.h:12-14, but no source file defines them, so the model has no I-, S- or U-type execution.
- Execute.ExecuteInstruction: promises nothing about the registers for I-, S- and U-type records, because the handlers called there are not part of the source.
- Execute.ExecuteInstruction: has no `memory` argument, because only the missing I and S handlers would use it.
- Execute.ExecuteInstruction: requires the record's variant to match its class (`FieldsFit`). The C union is read through the member of the class; every record the decoder builds satisfies this.
- The PC is a field of `RegisterFile`. No modelled operation updates it.
- Memory.LoadB, Memory.LoadHW, Memory.LoadW, Memory.LoadBU and Memory.LoadHWU require the accessed bytes to lie inside the data. The C code does not check bounds, and reading outside the data is undefined behaviour. The `size` field is carried but, as in the source, never consulted.
- Memory.StoreByte, Memory.StoreHalfword and Memory.StoreWord require the written bytes to lie inside the array, for the same reason.
- DumpFilename.MakeDumpFilename: the outcome of `malloc` is a boolean parameter. The input is the character sequence before the terminating NUL.
- Registers.RegName: the C table is indexed by any `reg_t`; the model takes only the 32 register numbers.

## Findings

| source | as written | input that shows it | evidently intended | confidence | as-written member | corrected member |
|---|---|---|---|---|---|---|
| src/register.c:12-16 | `strrchr(input, '.')` searches the whole path, so a '.' in a directory name is taken as the file's extension | "../tests/add" gives ".-answer.res" instead of "../tests/add-answer.res" | strip an extension of the last path component only ("Strip ext", and "<basename>-answer.res" in the comment at line 10) | medium, not executed | DumpFilename.DotInDirectory | DumpFilename.KeepsDirectory |
