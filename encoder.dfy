/**
 * `encode_instruction` (Scripts/assembler.py, lines 221-387): a parsed
 * dictionary becomes one 32-bit machine word, written as eight hexadecimal
 * digits. The branch is chosen on the `'opcode'` entry exactly as written;
 * a mnemonic in no family prints an error and yields None.
 */
module Encoder {
  import opened Wrappers
  import opened Bits
  import opened Text
  import opened Tables
  import opened Registers
  import opened Parser
  import opened Formats
  import opened Hex

  // ------------------------------------------------------- Python's pieces

  /** `parsed_instr[key]`: a KeyError when the dictionary has no such entry. */
  function Entry(e: Option<string>): Result<string, Crash> {
    if e.Some? then Success(e.value) else Failure(KeyError)
  }

  /** `int(text)`: a ValueError unless the text is a decimal numeral. */
  function Int(text: string): Result<int, Crash> {
    match ParseInt(text)
    case Some(v) => Success(v)
    case None => Failure(ValueError)
  }

  /** Lines 257-262: the shifts keep five bits of the amount, and `srai` also sets bit 10 of the immediate. */
  function ShiftAdjusted(m: string, imm: int): int {
    if m == "slli" then Mask(imm, 5)
    else if m == "srli" then Mask(imm, 5)
    else if m == "srai" then BitOr(Mask(imm, 5), 0x400)
    else imm
  }

  // ------------------------------------------------------- the branches

  /** Lines 228-243: funct7, rs2, rs1, funct3, rd and the opcode, from bit 31 down. */
  function EncodeR(p: Parsed, op: int, funct3: int, funct7: int): Result<Option<Word>, Crash> {
    var rdName :- Entry(p.rd);
    var rs1Name :- Entry(p.rs1);
    var rs2Name :- Entry(p.rs2);
    var rd, rs1, rs2 := RegisterToNumber(rdName), RegisterToNumber(rs1Name), RegisterToNumber(rs2Name);
    if rd.None? || rs1.None? || rs2.None? then Failure(TypeError)
    else Success(Some(Low32(RWord(funct7, rs2.value, rs1.value, funct3, rd.value, op))))
  }

  /**
   * Lines 246-285 and 370-384: the immediate, rs1, funct3, rd and the opcode, shared by
   * the I family (where `shift` applies the shift adjustment), the loads and
   * `jalr`.
   */
  function EncodeI(p: Parsed, op: int, funct3: int, shift: bool): Result<Option<Word>, Crash> {
    var rdName :- Entry(p.rd);
    var rs1Name :- Entry(p.rs1);
    var immText :- Entry(p.imm);
    var imm :- Int(immText);
    var rd, rs1 := RegisterToNumber(rdName), RegisterToNumber(rs1Name);
    var amount := if shift then ShiftAdjusted(p.mnemonic, imm) else imm;
    if rd.None? || rs1.None? then Failure(TypeError)
    else Success(Some(Low32(IWord(amount, rs1.value, funct3, rd.value, op))))
  }

  /** Lines 288-306: the immediate split around rs2, rs1 and funct3. */
  function EncodeS(p: Parsed, op: int, funct3: int): Result<Option<Word>, Crash> {
    var rs1Name :- Entry(p.rs1);
    var rs2Name :- Entry(p.rs2);
    var immText :- Entry(p.imm);
    var imm :- Int(immText);
    var rs1, rs2 := RegisterToNumber(rs1Name), RegisterToNumber(rs2Name);
    if rs1.None? || rs2.None? then Failure(TypeError)
    else Success(Some(Low32(SWord(imm, rs2.value, rs1.value, funct3, op))))
  }

  /** Lines 309-329: the branch offset scattered over bits 31, 30-25, 11-8 and 7. */
  function EncodeB(p: Parsed, op: int, funct3: int): Result<Option<Word>, Crash> {
    var rs1Name :- Entry(p.rs1);
    var rs2Name :- Entry(p.rs2);
    var immText :- Entry(p.imm);
    var imm :- Int(immText);
    var rs1, rs2 := RegisterToNumber(rs1Name), RegisterToNumber(rs2Name);
    if rs1.None? || rs2.None? then Failure(TypeError)
    else Success(Some(Low32(BWord(imm, rs2.value, rs1.value, funct3, op))))
  }

  /** Lines 332-344: the upper immediate above rd and the opcode. */
  function EncodeU(p: Parsed, op: int): Result<Option<Word>, Crash> {
    var rdName :- Entry(p.rd);
    var immText :- Entry(p.imm);
    var imm :- Int(immText);
    var rd := RegisterToNumber(rdName);
    if rd.None? then Failure(TypeError)
    else Success(Some(Low32(UWord(imm, rd.value, op))))
  }

  /** Lines 350-367: the jump offset scattered over bits 31, 30-21, 20 and 19-12. */
  function EncodeJal(p: Parsed, op: int): Result<Option<Word>, Crash> {
    var rdName :- Entry(p.rd);
    var immText :- Entry(p.imm);
    var imm :- Int(immText);
    var rd := RegisterToNumber(rdName);
    if rd.None? then Failure(TypeError)
    else Success(Some(Low32(JWord(imm, rd.value, op))))
  }

  /**
   * The machine word of a parsed line: None in, a TypeError (`None['opcode']`);
   * a mnemonic in no family, Success(None), the path that prints the error.
   */
  function EncodeWord(parsed: Option<Parsed>): Result<Option<Word>, Crash> {
    if parsed.None? then Failure(TypeError)
    else
      var p := parsed.value;
      var m := p.mnemonic;
      EncodingsCoverFamilies();
      FieldsPresent(m);
      if m in RType then
        EncodeR(p, REncodings[m].opcode, REncodings[m].funct3.value, REncodings[m].funct7.value)
      else if m in IType then EncodeI(p, IEncodings[m].opcode, IEncodings[m].funct3.value, true)
      else if m in LType then EncodeI(p, LEncodings[m].opcode, LEncodings[m].funct3.value, false)
      else if m in SType then EncodeS(p, SEncodings[m].opcode, SEncodings[m].funct3.value)
      else if m in BType then EncodeB(p, BEncodings[m].opcode, BEncodings[m].funct3.value)
      else if m in UType then EncodeU(p, UEncodings[m].opcode)
      else if m == "jal" then EncodeJal(p, JEncodings[m].opcode)
      else if m == "jalr" then EncodeI(p, JEncodings[m].opcode, JEncodings[m].funct3.value, false)
      else Success(None)
  }

  /**
   * The returned text: the low 32 bits of the word as eight zero-padded
   * lower-case hexadecimal digits, the same outcome when there is no word.
   */
  function EncodeInstruction(parsed: Option<Parsed>): (r: Result<Option<string>, Crash>)
    ensures EncodeWord(parsed).Failure? ==> r == Failure(EncodeWord(parsed).error)
    ensures EncodeWord(parsed) == Success(None) ==> r == Success(None)
    ensures EncodeWord(parsed).Success? && EncodeWord(parsed).value.Some? ==>
      r.Success? && r.value.Some? && |r.value.value| == 8 && IsHexString(r.value.value) && HexValue(r.value.value) == EncodeWord(parsed).value.value
  {
    var w :- EncodeWord(parsed);
    if w.None? then Success(None)
    else
      Hex8RoundTrip(w.value);
      Success(Some(Hex8(w.value)))
  }

  // ------------------------------------------------------- the specification

  /** A register operand that is present and names register `index`. */
  predicate Names(name: Option<string>, index: int) {
    name.Some? && RegisterToNumber(name.value) == Some(index)
  }

  /** The immediate entry as a number, when there is one and it is a numeral. */
  function ImmValue(p: Parsed): Option<int> {
    if p.imm.Some? then ParseInt(p.imm.value) else None
  }

  /**
   * The twelve-bit I immediate the source intends: for the shifts the amount
   * modulo 32, with bit 10 set for `srai`; otherwise imm mod 2^12.
   */
  function IField(m: string, imm: int): int {
    if m == "slli" || m == "srli" then imm % 32
    else if m == "srai" then 0x400 + imm % 32
    else imm % 4096
  }

  /**
   * What a word must hold to encode a parsed instruction, read field by
   * field through the RISC-V decoders: the family's fixed fields from its
   * dictionary, the operand registers, and the immediate reduced to the
   * bits the format keeps.
   */
  predicate Encodes(p: Parsed, w: Word) {
    var m := p.mnemonic;
    var imm := ImmValue(p);
    EncodingsCoverFamilies();
    FieldsPresent(m);
    if m in RType then
      var f := REncodings[m];
      Opcode(w) == f.opcode && Funct3(w) == f.funct3.value && Funct7(w) == f.funct7.value &&
      Names(p.rd, Rd(w)) && Names(p.rs1, Rs1(w)) && Names(p.rs2, Rs2(w))
    else if m in IType then
      var f := IEncodings[m];
      Opcode(w) == f.opcode && Funct3(w) == f.funct3.value && Names(p.rd, Rd(w)) && Names(p.rs1, Rs1(w)) &&
      imm.Some? && IImm(w) == IField(m, imm.value)
    else if m in LType then
      var f := LEncodings[m];
      Opcode(w) == f.opcode && Funct3(w) == f.funct3.value && Names(p.rd, Rd(w)) && Names(p.rs1, Rs1(w)) &&
      imm.Some? && IImm(w) == imm.value % 4096
    else if m in SType then
      var f := SEncodings[m];
      Opcode(w) == f.opcode && Funct3(w) == f.funct3.value && Names(p.rs1, Rs1(w)) && Names(p.rs2, Rs2(w)) &&
      imm.Some? && SImm(w) == imm.value % 4096
    else if m in BType then
      var f := BEncodings[m];
      Opcode(w) == f.opcode && Funct3(w) == f.funct3.value && Names(p.rs1, Rs1(w)) && Names(p.rs2, Rs2(w)) &&
      imm.Some? && BImm(w) == imm.value % 0x2000 - imm.value % 2
    else if m in UType then
      Opcode(w) == UEncodings[m].opcode && Names(p.rd, Rd(w)) &&
      imm.Some? && UImm(w) == imm.value % 0x10_0000
    else if m == "jal" then
      Opcode(w) == JEncodings[m].opcode && Names(p.rd, Rd(w)) &&
      imm.Some? && JImm(w) == imm.value % 0x20_0000 - imm.value % 2
    else if m == "jalr" then
      Opcode(w) == JEncodings[m].opcode && Funct3(w) == JEncodings[m].funct3.value &&
      Names(p.rd, Rd(w)) && Names(p.rs1, Rs1(w)) && imm.Some? && IImm(w) == imm.value % 4096
    else false
  }

  /** The immediate entry, when present, is a numeral. */
  predicate ImmParses(p: Parsed) {
    p.imm.Some? ==> ParseInt(p.imm.value).Some?
  }

  /** Every register entry present names a register. */
  predicate Resolves(p: Parsed) {
    (p.rd.Some? ==> RegisterToNumber(p.rd.value).Some?) &&
    (p.rs1.Some? ==> RegisterToNumber(p.rs1.value).Some?) &&
    (p.rs2.Some? ==> RegisterToNumber(p.rs2.value).Some?)
  }

  /**
   * The outcome for a dictionary whose entries are all present: a ValueError
   * for an immediate that is not a numeral (`int()` comes before the
   * shifts), else a TypeError for a register name not in the table
   * (`None << 7`), else a word.
   */
  predicate Expected(p: Parsed, r: Result<Option<Word>, Crash>) {
    if !ImmParses(p) then r == Failure(ValueError)
    else if !Resolves(p) then r == Failure(TypeError)
    else r.Success? && r.value.Some?
  }

  // ------------------------------------------------------- shift adjustment

  lemma ShiftAmounts(m: string, imm: int)
    ensures m == "slli" || m == "srli" ==> ShiftAdjusted(m, imm) == imm % 32
    ensures m == "srai" ==> ShiftAdjusted(m, imm) == 0x400 + imm % 32
    ensures m != "slli" && m != "srli" && m != "srai" ==> ShiftAdjusted(m, imm) == imm
  {
    assert Pow2(5) == 32 && Pow2(10) == 0x400 by { Pow2Values(); }
    if m == "srai" {
      OrCommutes(imm % 32, 0x400);
      OrAdd(1, 10, imm % 32);
    }
  }

  /** The adjusted amount, reduced to the twelve-bit field, is the intended I immediate. */
  lemma ShiftField(m: string, imm: int)
    ensures ShiftAdjusted(m, imm) % 4096 == IField(m, imm)
  {
    ShiftAmounts(m, imm);
  }

  // ------------------------------------------------------- soundness per branch

  lemma RSound(p: Parsed, op: int, funct3: int, funct7: int)
    requires 0 <= op < 128 && 0 <= funct3 < 8 && 0 <= funct7 < 128
    ensures var r := EncodeR(p, op, funct3, funct7);
      r.Success? ==> (r.value.Some? &&
        var w := r.value.value;
        Opcode(w) == op && Funct3(w) == funct3 && Funct7(w) == funct7 &&
        Names(p.rd, Rd(w)) && Names(p.rs1, Rs1(w)) && Names(p.rs2, Rs2(w)))
  {
    if p.rd.Some? && p.rs1.Some? && p.rs2.Some? {
      var rd, rs1, rs2 := RegisterToNumber(p.rd.value), RegisterToNumber(p.rs1.value), RegisterToNumber(p.rs2.value);
      if rd.Some? && rs1.Some? && rs2.Some? {
        RFormat(funct7, rs2.value, rs1.value, funct3, rd.value, op);
      }
    }
  }

  lemma ISound(p: Parsed, op: int, funct3: int, shift: bool)
    requires 0 <= op < 128 && 0 <= funct3 < 8
    ensures var r := EncodeI(p, op, funct3, shift);
      r.Success? ==> (r.value.Some? && ImmValue(p).Some? &&
        var w, imm := r.value.value, ImmValue(p).value;
        Opcode(w) == op && Funct3(w) == funct3 && Names(p.rd, Rd(w)) && Names(p.rs1, Rs1(w)) &&
        IImm(w) == (if shift then IField(p.mnemonic, imm) else imm % 4096))
  {
    if p.rd.Some? && p.rs1.Some? && p.imm.Some? && ParseInt(p.imm.value).Some? {
      var rd, rs1 := RegisterToNumber(p.rd.value), RegisterToNumber(p.rs1.value);
      var imm := ParseInt(p.imm.value).value;
      if rd.Some? && rs1.Some? {
        var amount := if shift then ShiftAdjusted(p.mnemonic, imm) else imm;
        IFormat(amount, rs1.value, funct3, rd.value, op);
        if shift {
          ShiftField(p.mnemonic, imm);
        }
      }
    }
  }

  lemma SSound(p: Parsed, op: int, funct3: int)
    requires 0 <= op < 128 && 0 <= funct3 < 8
    ensures var r := EncodeS(p, op, funct3);
      r.Success? ==> (r.value.Some? && ImmValue(p).Some? &&
        var w := r.value.value;
        Opcode(w) == op && Funct3(w) == funct3 && Names(p.rs1, Rs1(w)) && Names(p.rs2, Rs2(w)) &&
        SImm(w) == ImmValue(p).value % 4096)
  {
    if p.rs1.Some? && p.rs2.Some? && p.imm.Some? && ParseInt(p.imm.value).Some? {
      var rs1, rs2 := RegisterToNumber(p.rs1.value), RegisterToNumber(p.rs2.value);
      if rs1.Some? && rs2.Some? {
        SFormat(ParseInt(p.imm.value).value, rs2.value, rs1.value, funct3, op);
      }
    }
  }

  lemma BSound(p: Parsed, op: int, funct3: int)
    requires 0 <= op < 128 && 0 <= funct3 < 8
    ensures var r := EncodeB(p, op, funct3);
      r.Success? ==> (r.value.Some? && ImmValue(p).Some? &&
        var w, imm := r.value.value, ImmValue(p).value;
        Opcode(w) == op && Funct3(w) == funct3 && Names(p.rs1, Rs1(w)) && Names(p.rs2, Rs2(w)) &&
        BImm(w) == imm % 0x2000 - imm % 2)
  {
    if p.rs1.Some? && p.rs2.Some? && p.imm.Some? && ParseInt(p.imm.value).Some? {
      var rs1, rs2 := RegisterToNumber(p.rs1.value), RegisterToNumber(p.rs2.value);
      if rs1.Some? && rs2.Some? {
        BFormat(ParseInt(p.imm.value).value, rs2.value, rs1.value, funct3, op);
      }
    }
  }

  lemma USound(p: Parsed, op: int)
    requires 0 <= op < 128
    ensures var r := EncodeU(p, op);
      r.Success? ==> (r.value.Some? && ImmValue(p).Some? &&
        var w := r.value.value;
        Opcode(w) == op && Names(p.rd, Rd(w)) && UImm(w) == ImmValue(p).value % 0x10_0000)
  {
    if p.rd.Some? && p.imm.Some? && ParseInt(p.imm.value).Some? {
      var rd := RegisterToNumber(p.rd.value);
      if rd.Some? {
        UFormat(ParseInt(p.imm.value).value, rd.value, op);
      }
    }
  }

  lemma JalSound(p: Parsed, op: int)
    requires 0 <= op < 128
    ensures var r := EncodeJal(p, op);
      r.Success? ==> (r.value.Some? && ImmValue(p).Some? &&
        var w, imm := r.value.value, ImmValue(p).value;
        Opcode(w) == op && Names(p.rd, Rd(w)) && JImm(w) == imm % 0x20_0000 - imm % 2)
  {
    if p.rd.Some? && p.imm.Some? && ParseInt(p.imm.value).Some? {
      var rd := RegisterToNumber(p.rd.value);
      if rd.Some? {
        JFormat(ParseInt(p.imm.value).value, rd.value, op);
      }
    }
  }

  /**
   * Every word the encoder produces encodes its instruction: each field,
   * read back through the decoders, is the dictionary's constant, the named
   * register or the immediate's kept bits.
   */
  lemma EncodeSound(parsed: Option<Parsed>)
    ensures var r := EncodeWord(parsed);
      r.Success? && r.value.Some? ==> Encodes(parsed.value, r.value.value)
  {
    if parsed.Some? {
      var p := parsed.value;
      var m := p.mnemonic;
      EncodingsCoverFamilies();
      FieldsPresent(m);
      FieldsFit();
      if m in RType {
        var f := REncodings[m];
        RSound(p, f.opcode, f.funct3.value, f.funct7.value);
      } else if m in IType {
        var f := IEncodings[m];
        ISound(p, f.opcode, f.funct3.value, true);
      } else if m in LType {
        var f := LEncodings[m];
        ISound(p, f.opcode, f.funct3.value, false);
      } else if m in SType {
        var f := SEncodings[m];
        SSound(p, f.opcode, f.funct3.value);
      } else if m in BType {
        var f := BEncodings[m];
        BSound(p, f.opcode, f.funct3.value);
      } else if m in UType {
        USound(p, UEncodings[m].opcode);
      } else if m == "jal" {
        JalSound(p, JEncodings[m].opcode);
      } else if m == "jalr" {
        ISound(p, JEncodings[m].opcode, JEncodings[m].funct3.value, false);
      }
    }
  }

  // ------------------------------------------------------- outcomes

  lemma ROutcome(p: Parsed, op: int, funct3: int, funct7: int)
    requires p.rd.Some? && p.rs1.Some? && p.rs2.Some? && p.imm.None?
    ensures Expected(p, EncodeR(p, op, funct3, funct7))
  {
  }

  lemma IOutcome(p: Parsed, op: int, funct3: int, shift: bool)
    requires p.rd.Some? && p.rs1.Some? && p.rs2.None? && p.imm.Some?
    ensures Expected(p, EncodeI(p, op, funct3, shift))
  {
  }

  lemma SOutcome(p: Parsed, op: int, funct3: int)
    requires p.rd.None? && p.rs1.Some? && p.rs2.Some? && p.imm.Some?
    ensures Expected(p, EncodeS(p, op, funct3)) && Expected(p, EncodeB(p, op, funct3))
  {
  }

  lemma UOutcome(p: Parsed, op: int)
    requires p.rd.Some? && p.rs1.None? && p.rs2.None? && p.imm.Some?
    ensures Expected(p, EncodeU(p, op)) && Expected(p, EncodeJal(p, op))
  {
  }

  lemma DispatchR(p: Parsed)
    requires p.mnemonic in RType && p.rd.Some? && p.rs1.Some? && p.rs2.Some? && p.imm.None?
    ensures Expected(p, EncodeWord(Some(p)))
  {
    var m := p.mnemonic;
    EncodingsCoverFamilies();
    FieldsPresent(m);
    ROutcome(p, REncodings[m].opcode, REncodings[m].funct3.value, REncodings[m].funct7.value);
  }

  lemma DispatchI(p: Parsed)
    requires p.mnemonic in IType && p.mnemonic !in RType
    requires p.rd.Some? && p.rs1.Some? && p.rs2.None? && p.imm.Some?
    ensures Expected(p, EncodeWord(Some(p)))
  {
    var m := p.mnemonic;
    EncodingsCoverFamilies();
    FieldsPresent(m);
    IOutcome(p, IEncodings[m].opcode, IEncodings[m].funct3.value, true);
  }

  lemma DispatchL(p: Parsed)
    requires p.mnemonic in LType && p.mnemonic !in RType && p.mnemonic !in IType
    requires p.rd.Some? && p.rs1.Some? && p.rs2.None? && p.imm.Some?
    ensures Expected(p, EncodeWord(Some(p)))
  {
    var m := p.mnemonic;
    EncodingsCoverFamilies();
    FieldsPresent(m);
    IOutcome(p, LEncodings[m].opcode, LEncodings[m].funct3.value, false);
  }

  lemma DispatchS(p: Parsed)
    requires p.mnemonic in SType && p.mnemonic !in RType && p.mnemonic !in IType && p.mnemonic !in LType
    requires p.rd.None? && p.rs1.Some? && p.rs2.Some? && p.imm.Some?
    ensures Expected(p, EncodeWord(Some(p)))
  {
    var m := p.mnemonic;
    EncodingsCoverFamilies();
    FieldsPresent(m);
    SOutcome(p, SEncodings[m].opcode, SEncodings[m].funct3.value);
  }

  lemma DispatchB(p: Parsed)
    requires p.mnemonic in BType && p.mnemonic !in RType && p.mnemonic !in IType
    requires p.mnemonic !in LType && p.mnemonic !in SType
    requires p.rd.None? && p.rs1.Some? && p.rs2.Some? && p.imm.Some?
    ensures Expected(p, EncodeWord(Some(p)))
  {
    var m := p.mnemonic;
    EncodingsCoverFamilies();
    FieldsPresent(m);
    SOutcome(p, BEncodings[m].opcode, BEncodings[m].funct3.value);
  }

  lemma DispatchU(p: Parsed)
    requires p.mnemonic in UType && p.mnemonic !in RType && p.mnemonic !in IType
    requires p.mnemonic !in LType && p.mnemonic !in SType && p.mnemonic !in BType
    requires p.rd.Some? && p.rs1.None? && p.rs2.None? && p.imm.Some?
    ensures Expected(p, EncodeWord(Some(p)))
  {
    EncodingsCoverFamilies();
    UOutcome(p, UEncodings[p.mnemonic].opcode);
  }

  lemma DispatchJal(p: Parsed)
    requires p.mnemonic == "jal" && p.rd.Some? && p.rs1.None? && p.rs2.None? && p.imm.Some?
    ensures Expected(p, EncodeWord(Some(p)))
  {
    JumpsOutsideOtherFamilies();
    UOutcome(p, 0x6F);
  }

  lemma DispatchJalr(p: Parsed)
    requires p.mnemonic == "jalr" && p.rd.Some? && p.rs1.Some? && p.rs2.None? && p.imm.Some?
    ensures Expected(p, EncodeWord(Some(p)))
  {
    JumpsOutsideOtherFamilies();
    IOutcome(p, 0x67, 0, false);
  }

  lemma JumpsOutsideOtherFamilies()
    ensures "jal" !in RType && "jal" !in IType && "jal" !in LType && "jal" !in SType && "jal" !in BType && "jal" !in UType
    ensures "jalr" !in RType && "jalr" !in IType && "jalr" !in LType && "jalr" !in SType && "jalr" !in BType && "jalr" !in UType
  {
    FamiliesDisjoint();
  }

  /**
   * For a dictionary as the parser builds it, the encoder's outcome is
   * decided by the operands alone: a mnemonic written in a case the tables
   * do not hold yields no word; otherwise a non-numeral immediate is a
   * ValueError, then an unknown register a TypeError, and anything else
   * a word.
   */
  lemma EncodeOutcome(p: Parsed)
    requires HasOperands(p) && FamilyOf(Lower(p.mnemonic)) == Some(p.kind)
    ensures !IsMnemonic(p.mnemonic) ==> EncodeWord(Some(p)) == Success(None)
    ensures IsMnemonic(p.mnemonic) ==> Expected(p, EncodeWord(Some(p)))
  {
    var m := p.mnemonic;
    if IsMnemonic(m) {
      MnemonicsLowerCase(m);
      assert FamilyOf(m) == Some(p.kind);
      FamiliesDisjoint();
      match p.kind
      case R => DispatchR(p);
      case I => DispatchI(p);
      case L => DispatchL(p);
      case S => DispatchS(p);
      case B => DispatchB(p);
      case U => DispatchU(p);
      case J => DispatchJal(p);
      case Jalr => DispatchJalr(p);
    }
  }

  // ------------------------------------------------------- shifts

  /** Setting bit 10 of the immediate sets bit 30 of the word and nothing else. */
  lemma ShiftWords(x: int, rs1: int, rd: int)
    requires 0 <= x < 32 && 0 <= rs1 < 32 && 0 <= rd < 32
    ensures Low32(IWord(0x400 + x, rs1, 5, rd, 0x13)) == Low32(IWord(x, rs1, 5, rd, 0x13)) + 0x4000_0000
  {
    var low := ((rs1 * 8 + 5) * 32 + rd) * 128 + 0x13;
    assert 0 <= low < 0x10_0000;
    IWordSum(x, rs1, 5, rd, 0x13);
    IWordSum(0x400 + x, rs1, 5, rd, 0x13);
    assert (0x400 + x) * 0x10_0000 + low == x * 0x10_0000 + low + 0x4000_0000;
    Low32Small(x * 0x10_0000 + low);
    Low32Small((0x400 + x) * 0x10_0000 + low);
  }

  lemma ShiftDispatch(p: Parsed)
    requires p.mnemonic == "srli" || p.mnemonic == "srai"
    ensures EncodeWord(Some(p)) == EncodeI(p, 0x13, 5, true)
  {
    assert p.mnemonic in IType && p.mnemonic !in RType;
  }

  /** The mnemonic matters to the I branch only through the shift adjustment of a successful encoding. */
  lemma MnemonicOnlyShifts(p: Parsed, q: Parsed, op: int, funct3: int)
    requires q == p.(mnemonic := q.mnemonic)
    ensures EncodeI(p, op, funct3, true).Failure? ==> EncodeI(q, op, funct3, true) == EncodeI(p, op, funct3, true)
    ensures EncodeI(p, op, funct3, true).Success? ==> EncodeI(q, op, funct3, true).Success?
  {
  }

  // ------------------------------------------------------- register names

  /** Two register entries that are both absent, or both present and resolving alike. */
  predicate SameRegister(a: Option<string>, b: Option<string>) {
    (a.None? && b.None?) || (a.Some? && b.Some? && RegisterToNumber(a.value) == RegisterToNumber(b.value))
  }

  /**
   * The encoder sees a register only through its index: writing an operand
   * under another name of the same register (an ABI alias, `fp`, another
   * case) changes neither the word nor the error.
   */
  lemma AliasSameWord(p: Parsed, q: Parsed)
    requires q == p.(rd := q.rd, rs1 := q.rs1, rs2 := q.rs2)
    requires SameRegister(p.rd, q.rd) && SameRegister(p.rs1, q.rs1) && SameRegister(p.rs2, q.rs2)
    ensures EncodeWord(Some(p)) == EncodeWord(Some(q))
  {
  }

  /** `a0` and `x10` give the same outcome wherever they stand as rd. */
  lemma ArgumentAliasSameWord(p: Parsed)
    requires p.rd == Some("a0")
    ensures EncodeWord(Some(p)) == EncodeWord(Some(p.(rd := Some("x10"))))
  {
    ArgumentAlias();
    AliasSameWord(p, p.(rd := Some("x10")));
  }

  // ------------------------------------------------------- shifts, continued

  /** A successful I encoding, with the register indexes and immediate it was built from. */
  lemma IWordOf(p: Parsed, op: int, funct3: int) returns (rd: RegIndex, rs1: RegIndex, imm: int)
    requires EncodeI(p, op, funct3, true).Success?
    ensures p.rd.Some? && p.rs1.Some? && p.imm.Some?
    ensures RegisterToNumber(p.rd.value) == Some(rd) && RegisterToNumber(p.rs1.value) == Some(rs1)
    ensures ParseInt(p.imm.value) == Some(imm)
    ensures EncodeI(p, op, funct3, true) == Success(Some(Low32(IWord(ShiftAdjusted(p.mnemonic, imm), rs1, funct3, rd, op))))
  {
    rd, rs1, imm := RegisterToNumber(p.rd.value).value, RegisterToNumber(p.rs1.value).value, ParseInt(p.imm.value).value;
  }

  /** The I branch for `srli` and for `srai` on the same operands: the same failure, or words apart by bit 30. */
  lemma ShiftBitI(pl: Parsed, pa: Parsed)
    requires pl.mnemonic == "srli" && pa == pl.(mnemonic := "srai")
    ensures EncodeI(pl, 0x13, 5, true).Failure? ==> EncodeI(pa, 0x13, 5, true) == EncodeI(pl, 0x13, 5, true)
    ensures EncodeI(pl, 0x13, 5, true).Success? ==>
      (EncodeI(pl, 0x13, 5, true).value.Some? && EncodeI(pa, 0x13, 5, true).Success? &&
       EncodeI(pa, 0x13, 5, true).value.Some? &&
       EncodeI(pa, 0x13, 5, true).value.value == EncodeI(pl, 0x13, 5, true).value.value + 0x4000_0000)
  {
    MnemonicOnlyShifts(pl, pa, 0x13, 5);
    if EncodeI(pl, 0x13, 5, true).Success? {
      var rdIndex, rs1Index, imm := IWordOf(pl, 0x13, 5);
      var rdIndex', rs1Index', imm' := IWordOf(pa, 0x13, 5);
      ShiftAmounts("srli", imm);
      ShiftAmounts("srai", imm);
      ShiftWords(imm % 32, rs1Index, rdIndex);
    }
  }

  /**
   * `srai` and `srli` with the same operands give the same outcome, and
   * their words differ only in bit 30.
   */
  lemma ArithmeticShiftBit(rd: string, rs1: string, shamt: string)
    ensures var logical := EncodeWord(Some(Parsed(I, "srli", Some(rd), Some(rs1), None, Some(shamt))));
      var arithmetic := EncodeWord(Some(Parsed(I, "srai", Some(rd), Some(rs1), None, Some(shamt))));
      (logical.Failure? ==> arithmetic == logical) &&
      (logical.Success? ==> (logical.value.Some? && arithmetic.Success? && arithmetic.value.Some? &&
        arithmetic.value.value == logical.value.value + 0x4000_0000))
  {
    var pl := Parsed(I, "srli", Some(rd), Some(rs1), None, Some(shamt));
    var pa := Parsed(I, "srai", Some(rd), Some(rs1), None, Some(shamt));
    ShiftDispatch(pl);
    ShiftDispatch(pa);
    ShiftBitI(pl, pa);
  }

  /**
   * The shifts depend on their amount only modulo 32: two shift dictionaries
   * that differ only in immediates agreeing modulo 32 have the same outcome.
   */
  lemma ShiftModulo(p: Parsed, q: Parsed)
    requires p.mnemonic == "slli" || p.mnemonic == "srli" || p.mnemonic == "srai"
    requires q == p.(imm := q.imm)
    requires ImmValue(p).Some? && ImmValue(q).Some? && ImmValue(p).value % 32 == ImmValue(q).value % 32
    ensures EncodeWord(Some(p)) == EncodeWord(Some(q))
  {
    var m := p.mnemonic;
    assert m in IType && m !in RType;
    ShiftAmounts(m, ImmValue(p).value);
    ShiftAmounts(m, ImmValue(q).value);
    assert ShiftAdjusted(m, ImmValue(p).value) == ShiftAdjusted(m, ImmValue(q).value);
  }

  /**
   * The shift instructions put the amount, modulo 32, in the rs2 position
   * and the RISC-V funct7 above it: 0x20 for `srai`, zero for the others.
   */
  lemma ShiftEncoding(p: Parsed)
    requires p.mnemonic == "slli" || p.mnemonic == "srli" || p.mnemonic == "srai"
    ensures var r := EncodeWord(Some(p));
      r.Success? && r.value.Some? ==> (ImmValue(p).Some? &&
        Funct7(r.value.value) == (if p.mnemonic == "srai" then 0x20 else 0) &&
        Rs2(r.value.value) == ImmValue(p).value % 32)
  {
    var r := EncodeWord(Some(p));
    if r.Success? && r.value.Some? {
      EncodeSound(Some(p));
      assert p.mnemonic in IType && p.mnemonic !in RType;
      ShamtFields(r.value.value);
    }
  }
}
