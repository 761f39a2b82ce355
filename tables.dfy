/**
 * The assembler's static tables (Scripts/assembler.py, setup_instruction_tables
 * and setup_encoding_tables): which family each RV32I mnemonic belongs to, and
 * the fixed opcode, funct3 and funct7 fields of each mnemonic. The values are
 * those of the RV32I base opcode listing in the RISC-V Unprivileged ISA manual.
 */
module Tables {
  import opened Wrappers
  import opened Text

  /** R-type: rd, rs1, rs2. */
  const RType: set<string> := {"add", "sub", "sll", "slt", "sltu", "xor", "srl", "sra", "or", "and"}
  /** I-type arithmetic, logic and shifts: rd, rs1, immediate. */
  const IType: set<string> := {"addi", "slti", "sltiu", "xori", "ori", "andi", "slli", "srli", "srai"}
  /** I-type loads: rd, offset(rs1). */
  const LType: set<string> := {"lb", "lh", "lw", "lbu", "lhu"}
  /** S-type stores: rs2, offset(rs1). */
  const SType: set<string> := {"sb", "sh", "sw"}
  /** B-type branches: rs1, rs2, offset. */
  const BType: set<string> := {"beq", "bne", "blt", "bge", "bltu", "bgeu"}
  /** U-type: rd, upper immediate. */
  const UType: set<string> := {"lui", "auipc"}
  /** The two jumps: `jal` and `jalr`. */
  const JType: set<string> := {"jal", "jalr"}

  /** A mnemonic of some family: the assembler knows it. */
  predicate IsMnemonic(m: string) {
    m in RType || m in IType || m in LType || m in SType || m in BType || m in UType || m in JType
  }

  /**
   * One entry of an encoding dictionary. Every entry has an opcode; the
   * dictionaries give funct3 and funct7 only where the format has them.
   */
  datatype Fields = Fields(opcode: nat, funct3: Option<nat>, funct7: Option<nat>)

  function RFields(opcode: nat, funct3: nat, funct7: nat): Fields {
    Fields(opcode, Some(funct3), Some(funct7))
  }

  function F3Fields(opcode: nat, funct3: nat): Fields {
    Fields(opcode, Some(funct3), None)
  }

  const REncodings: map<string, Fields> := map[
    "add"  := RFields(0x33, 0x0, 0x00),
    "sub"  := RFields(0x33, 0x0, 0x20),
    "sll"  := RFields(0x33, 0x1, 0x00),
    "slt"  := RFields(0x33, 0x2, 0x00),
    "sltu" := RFields(0x33, 0x3, 0x00),
    "xor"  := RFields(0x33, 0x4, 0x00),
    "srl"  := RFields(0x33, 0x5, 0x00),
    "sra"  := RFields(0x33, 0x5, 0x20),
    "or"   := RFields(0x33, 0x6, 0x00),
    "and"  := RFields(0x33, 0x7, 0x00)]

  const IEncodings: map<string, Fields> := map[
    "addi"  := F3Fields(0x13, 0x0),
    "slti"  := F3Fields(0x13, 0x2),
    "sltiu" := F3Fields(0x13, 0x3),
    "xori"  := F3Fields(0x13, 0x4),
    "ori"   := F3Fields(0x13, 0x6),
    "andi"  := F3Fields(0x13, 0x7),
    "slli"  := F3Fields(0x13, 0x1),
    "srli"  := F3Fields(0x13, 0x5),
    "srai"  := F3Fields(0x13, 0x5)]

  const LEncodings: map<string, Fields> := map[
    "lb"  := F3Fields(0x03, 0x0),
    "lh"  := F3Fields(0x03, 0x1),
    "lw"  := F3Fields(0x03, 0x2),
    "lbu" := F3Fields(0x03, 0x4),
    "lhu" := F3Fields(0x03, 0x5)]

  const SEncodings: map<string, Fields> := map[
    "sb" := F3Fields(0x23, 0x0),
    "sh" := F3Fields(0x23, 0x1),
    "sw" := F3Fields(0x23, 0x2)]

  const BEncodings: map<string, Fields> := map[
    "beq"  := F3Fields(0x63, 0x0),
    "bne"  := F3Fields(0x63, 0x1),
    "blt"  := F3Fields(0x63, 0x4),
    "bge"  := F3Fields(0x63, 0x5),
    "bltu" := F3Fields(0x63, 0x6),
    "bgeu" := F3Fields(0x63, 0x7)]

  const UEncodings: map<string, Fields> := map[
    "lui"   := Fields(0x37, None, None),
    "auipc" := Fields(0x17, None, None)]

  const JEncodings: map<string, Fields> := map[
    "jal"  := Fields(0x6F, None, None),
    "jalr" := F3Fields(0x67, 0x0)]

  /** No R-type mnemonic belongs to another family. */
  lemma RTypeDisjoint()
    ensures RType !! IType && RType !! LType && RType !! SType && RType !! BType && RType !! UType && RType !! JType
  {
    RTypeDisjointFromI();
  }

  lemma RTypeDisjointFromI()
    ensures RType !! IType
  {
  }

  /** No I-type mnemonic belongs to a later family. */
  lemma ITypeDisjoint()
    ensures IType !! LType && IType !! SType && IType !! BType && IType !! UType && IType !! JType
  {
  }

  /** No load, store or branch mnemonic belongs to a later family. */
  lemma LSBTypeDisjoint()
    ensures LType !! SType && LType !! BType && LType !! UType && LType !! JType
    ensures SType !! BType && SType !! UType && SType !! JType
    ensures BType !! UType && BType !! JType && UType !! JType
  {
  }

  /** No mnemonic belongs to two families. */
  lemma FamiliesDisjoint()
    ensures RType !! IType && RType !! LType && RType !! SType && RType !! BType && RType !! UType && RType !! JType
    ensures IType !! LType && IType !! SType && IType !! BType && IType !! UType && IType !! JType
    ensures LType !! SType && LType !! BType && LType !! UType && LType !! JType
    ensures SType !! BType && SType !! UType && SType !! JType
    ensures BType !! UType && BType !! JType
    ensures UType !! JType
  {
    RTypeDisjoint();
    ITypeDisjoint();
    LSBTypeDisjoint();
  }

  /** Each family's dictionary has an entry for exactly the family's mnemonics. */
  lemma EncodingsCoverFamilies()
    ensures REncodings.Keys == RType && IEncodings.Keys == IType && LEncodings.Keys == LType
    ensures SEncodings.Keys == SType && BEncodings.Keys == BType && UEncodings.Keys == UType
    ensures JEncodings.Keys == JType
  {
    RIKeys();
    LSBKeys();
    UJKeys();
  }

  lemma RIKeys()
    ensures REncodings.Keys == RType && IEncodings.Keys == IType
  {
    assert REncodings.Keys == RType;
  }

  lemma LSBKeys()
    ensures LEncodings.Keys == LType && SEncodings.Keys == SType && BEncodings.Keys == BType
  {
  }

  lemma UJKeys()
    ensures UEncodings.Keys == UType && JEncodings.Keys == JType
  {
  }

  /** A 7-bit opcode, a 3-bit funct3 and a 7-bit funct7, where present. */
  predicate Fits(f: Fields) {
    f.opcode < 128 && (f.funct3.Some? ==> f.funct3.value < 8) && (f.funct7.Some? ==> f.funct7.value < 128)
  }

  /** Every fixed field of every dictionary fits its width. */
  lemma FieldsFit()
    ensures forall m :: m in REncodings ==> Fits(REncodings[m])
    ensures forall m :: m in IEncodings ==> Fits(IEncodings[m])
    ensures forall m :: m in LEncodings ==> Fits(LEncodings[m])
    ensures forall m :: m in SEncodings ==> Fits(SEncodings[m])
    ensures forall m :: m in BEncodings ==> Fits(BEncodings[m])
    ensures forall m :: m in UEncodings ==> Fits(UEncodings[m])
    ensures forall m :: m in JEncodings ==> Fits(JEncodings[m])
  {
    RFieldsFit();
    IFieldsFit();
    LSFieldsFit();
    BUJFieldsFit();
  }

  lemma RFieldsFit()
    ensures forall m :: m in REncodings ==> Fits(REncodings[m])
  {
  }

  lemma IFieldsFit()
    ensures forall m :: m in IEncodings ==> Fits(IEncodings[m])
  {
  }

  lemma LSFieldsFit()
    ensures forall m :: m in LEncodings ==> Fits(LEncodings[m])
    ensures forall m :: m in SEncodings ==> Fits(SEncodings[m])
  {
  }

  lemma BUJFieldsFit()
    ensures forall m :: m in BEncodings ==> Fits(BEncodings[m])
    ensures forall m :: m in UEncodings ==> Fits(UEncodings[m])
    ensures forall m :: m in JEncodings ==> Fits(JEncodings[m])
  {
  }

  /** The fields each encoder branch reads are present in its dictionary. */
  lemma FieldsPresent(m: string)
    ensures m in RType ==> REncodings[m].funct3.Some? && REncodings[m].funct7.Some?
    ensures m in IType ==> IEncodings[m].funct3.Some?
    ensures m in LType ==> LEncodings[m].funct3.Some?
    ensures m in SType ==> SEncodings[m].funct3.Some?
    ensures m in BType ==> BEncodings[m].funct3.Some?
    ensures m == "jalr" ==> JEncodings[m].funct3.Some?
  {
    if m in RType {
      RFieldsPresent(m);
    } else if m in IType {
      IFieldsPresent(m);
    } else if m in LType || m in SType || m in BType {
      LSBFieldsPresent(m);
    }
  }

  lemma RFieldsPresent(m: string)
    requires m in RType
    ensures REncodings[m].funct3.Some? && REncodings[m].funct7.Some?
  {
  }

  lemma IFieldsPresent(m: string)
    requires m in IType
    ensures IEncodings[m].funct3.Some?
  {
  }

  lemma LSBFieldsPresent(m: string)
    requires m in LType || m in SType || m in BType
    ensures m in LType ==> LEncodings[m].funct3.Some?
    ensures m in SType ==> SEncodings[m].funct3.Some?
    ensures m in BType ==> BEncodings[m].funct3.Some?
  {
  }

  /** Every mnemonic in the tables is written in lower case. */
  lemma MnemonicsLowerCase(m: string)
    requires IsMnemonic(m)
    ensures Lower(m) == m
  {
    assert AllLower(m) by {
      RLowerCase();
      IJLowerCase();
    }
    LowerKeeps(m);
  }

  lemma RLowerCase()
    ensures forall m :: m in RType ==> AllLower(m)
  {
  }

  lemma IJLowerCase()
    ensures forall m :: m in IType ==> AllLower(m)
    ensures forall m :: m in LType ==> AllLower(m)
    ensures forall m :: m in SType ==> AllLower(m)
    ensures forall m :: m in BType ==> AllLower(m)
    ensures forall m :: m in UType ==> AllLower(m)
    ensures forall m :: m in JType ==> AllLower(m)
  {
  }
}
