/**
 * Worked examples: single lines of assembly and the eight digits the assembler
 * writes for them, as the RISC-V encodings give them. Each example is put
 * together from small steps: the line's tokens parse to a dictionary, the
 * dictionary's branch computes a word, and the word's digits are the text.
 */
module Vectors {
  import opened Wrappers
  import opened Bits
  import opened Text
  import opened Tables
  import opened Registers
  import opened Parser
  import opened Formats
  import opened Hex
  import opened Encoder
  import opened Driver

  /** A source line as it is usually written: the mnemonic, a space, the operands separated by `, `. */
  function Line(mnemonic: string, operands: seq<string>): string {
    mnemonic + " " + JoinCommas(operands)
  }

  const AddiLine: string := Line("addi", ["x5", "x0", "5"])   // addi x5, x0, 5
  const AddiText: string := "00500293"
  const AddLine: string := Line("add", ["x1", "x2", "x3"])    // add x1, x2, x3
  const AddText: string := "003100b3"
  const SwLine: string := Line("sw", ["x5", "8(x2)"])         // sw x5, 8(x2)
  const SwText: string := "00512423"
  const JalLine: string := Line("jal", ["x1", "16"])          // jal x1, 16
  const JalText: string := "010000ef"
  const SraiLine: string := Line("srai", ["x1", "x2", "3"])   // srai x1, x2, 3
  const SraiText: string := "40315093"
  const UpperLine: string := Line("ADDI", ["x1", "x0", "5"])  // ADDI x1, x0, 5

  // ------------------------------------------------------- the steps

  /** A line written `mnemonic op1, op2, ...` parses as its tokens do. */
  lemma LineParses(mnemonic: string, operands: seq<string>, p: Parsed)
    requires IsToken(mnemonic) && |operands| > 0 && forall i :: 0 <= i < |operands| ==> IsToken(operands[i])
    requires ParseTokens([mnemonic] + operands) == Success(Some(p))
    ensures ParseInstruction(Line(mnemonic, operands)) == Success(Some(p))
  {
    TokenizeCanonical(mnemonic, operands);
  }

  lemma TwoOperands(mnemonic: string, a: string, b: string, p: Parsed)
    requires IsToken(mnemonic) && IsToken(a) && IsToken(b)
    requires ParseTokens([mnemonic, a, b]) == Success(Some(p))
    ensures ParseInstruction(Line(mnemonic, [a, b])) == Success(Some(p))
  {
    assert [mnemonic] + [a, b] == [mnemonic, a, b];
    LineParses(mnemonic, [a, b], p);
  }

  lemma ThreeOperands(mnemonic: string, a: string, b: string, c: string, p: Parsed)
    requires IsToken(mnemonic) && IsToken(a) && IsToken(b) && IsToken(c)
    requires ParseTokens([mnemonic, a, b, c]) == Success(Some(p))
    ensures ParseInstruction(Line(mnemonic, [a, b, c])) == Success(Some(p))
  {
    assert [mnemonic] + [a, b, c] == [mnemonic, a, b, c];
    LineParses(mnemonic, [a, b, c], p);
  }

  /** A line whose dictionary encodes to a word is written as that word's eight digits. */
  lemma LineText(line: string, p: Parsed, w: Word, t: string)
    requires ParseInstruction(line) == Success(Some(p))
    requires EncodeWord(Some(p)) == Success(Some(w))
    requires |t| == 8 && IsHexString(t) && HexValue(t) == w
    ensures EncodeLine(line) == Success(Some(t))
  {
    var r := EncodeInstruction(Some(p));
    HexValueInjective(r.value.value, t);
  }

  /** One more digit on the right multiplies by sixteen and adds its value. */
  lemma DigitPrefix(s: string, k: nat)
    requires 0 < k <= |s| && IsHexString(s)
    ensures HexValue(s[..k]) == HexValue(s[..k - 1]) * 16 + HexCharValue(s[k - 1])
  {
    assert s[..k][..k - 1] == s[..k - 1];
  }

  /** The number eight digits denote, digit by digit. */
  lemma HexValue8(s: string)
    requires |s| == 8 && IsHexString(s)
    ensures HexValue(s) == ((((((HexCharValue(s[0]) * 16 + HexCharValue(s[1])) * 16 + HexCharValue(s[2])) * 16 +
      HexCharValue(s[3])) * 16 + HexCharValue(s[4])) * 16 + HexCharValue(s[5])) * 16 + HexCharValue(s[6])) * 16 + HexCharValue(s[7])
  {
    assert s[..0] == [];
    DigitPrefix(s, 1);
    DigitPrefix(s, 2);
    DigitPrefix(s, 3);
    DigitPrefix(s, 4);
    DigitPrefix(s, 5);
    DigitPrefix(s, 6);
    DigitPrefix(s, 7);
    DigitPrefix(s, 8);
    assert s[..8] == s;
  }

  lemma DispatchRWord(p: Parsed, op: nat, funct3: nat, funct7: nat)
    requires p.mnemonic in REncodings && REncodings[p.mnemonic] == Tables.RFields(op, funct3, funct7)
    ensures EncodeWord(Some(p)) == EncodeR(p, op, funct3, funct7)
  {
    EncodingsCoverFamilies();
  }

  lemma DispatchIWord(p: Parsed, op: nat, funct3: nat)
    requires p.mnemonic in IType && p.mnemonic !in RType
    requires p.mnemonic in IEncodings && IEncodings[p.mnemonic] == F3Fields(op, funct3)
    ensures EncodeWord(Some(p)) == EncodeI(p, op, funct3, true)
  {
  }

  lemma DispatchSWord(p: Parsed, op: nat, funct3: nat)
    requires p.mnemonic in SType && p.mnemonic !in RType && p.mnemonic !in IType && p.mnemonic !in LType
    requires p.mnemonic in SEncodings && SEncodings[p.mnemonic] == F3Fields(op, funct3)
    ensures EncodeWord(Some(p)) == EncodeS(p, op, funct3)
  {
  }

  lemma DispatchJalWord(p: Parsed)
    requires p.mnemonic == "jal"
    ensures EncodeWord(Some(p)) == EncodeJal(p, 0x6F)
  {
    JumpsOutsideOtherFamilies();
  }

  lemma RValue(p: Parsed, op: int, funct3: int, funct7: int, rd: RegIndex, rs1: RegIndex, rs2: RegIndex, w: int)
    requires 0 <= op < 128 && 0 <= funct3 < 8 && 0 <= funct7 < 128
    requires Names(p.rd, rd) && Names(p.rs1, rs1) && Names(p.rs2, rs2)
    requires w == ((((funct7 * 32 + rs2) * 32 + rs1) * 8 + funct3) * 32 + rd) * 128 + op
    ensures 0 <= w < 0x1_0000_0000 && EncodeR(p, op, funct3, funct7) == Success(Some(w))
  {
    RWordSum(funct7, rs2, rs1, funct3, rd, op);
    Low32Small(w);
  }

  /** A small immediate needs no reduction: the adjusted value is already the field. */
  lemma SmallField(m: string, imm: int)
    requires 0 <= imm < 32
    ensures ShiftAdjusted(m, imm) == IField(m, imm) && 0 <= IField(m, imm) < 4096
  {
    ShiftAmounts(m, imm);
  }

  lemma IValue(p: Parsed, op: int, funct3: int, rd: RegIndex, rs1: RegIndex, imm: int, w: int)
    requires 0 <= op < 128 && 0 <= funct3 < 8
    requires Names(p.rd, rd) && Names(p.rs1, rs1) && ImmValue(p) == Some(imm) && 0 <= imm < 32
    requires w == IField(p.mnemonic, imm) * 0x10_0000 + ((rs1 * 8 + funct3) * 32 + rd) * 128 + op
    ensures 0 <= w < 0x1_0000_0000 && EncodeI(p, op, funct3, true) == Success(Some(w))
  {
    var a := IField(p.mnemonic, imm);
    SmallField(p.mnemonic, imm);
    IWordSum(a, rs1, funct3, rd, op);
    Low32Small(w);
  }

  lemma SWordSum(imm: int, rs2: int, rs1: int, funct3: int, op: int)
    requires 0 <= rs2 < 32 && 0 <= rs1 < 32 && 0 <= funct3 < 8 && 0 <= op < 128
    ensures SWord(imm, rs2, rs1, funct3, op) == ((((imm / 32 % 128 * 32 + rs2) * 32 + rs1) * 8 + funct3) * 32 + imm % 32) * 128 + op
  {
    SIsR(imm, rs2, rs1, funct3, op);
    RWordSum(imm / 32 % 128, rs2, rs1, funct3, imm % 32, op);
  }

  lemma SValue(p: Parsed, op: int, funct3: int, rs1: RegIndex, rs2: RegIndex, imm: int, w: int)
    requires 0 <= op < 128 && 0 <= funct3 < 8
    requires Names(p.rs1, rs1) && Names(p.rs2, rs2) && ImmValue(p) == Some(imm)
    requires w == ((((imm / 32 % 128 * 32 + rs2) * 32 + rs1) * 8 + funct3) * 32 + imm % 32) * 128 + op
    ensures 0 <= w < 0x1_0000_0000 && EncodeS(p, op, funct3) == Success(Some(w))
  {
    SWordSum(imm, rs2, rs1, funct3, op);
    Low32Small(w);
  }

  lemma JValue(p: Parsed, op: int, rd: RegIndex, imm: int, w: int)
    requires 0 <= op < 128
    requires Names(p.rd, rd) && ImmValue(p) == Some(imm)
    requires w == ((((imm / 0x10_0000 % 2 * 1024 + imm / 2 % 1024) * 2 + imm / 2048 % 2) * 256 + imm / 4096 % 256) * 32 + rd) * 128 + op
    ensures 0 <= w < 0x1_0000_0000 && EncodeJal(p, op) == Success(Some(w))
  {
    JWordSum(imm, rd, op);
    Low32Small(w);
  }

  lemma Registers1To5()
    ensures RegisterToNumber("x0") == Some(0) && RegisterToNumber("x1") == Some(1)
    ensures RegisterToNumber("x2") == Some(2) && RegisterToNumber("x3") == Some(3)
    ensures RegisterToNumber("x5") == Some(5)
  {
    LowerNoUpper("x0");
    LowerNoUpper("x1");
    LowerNoUpper("x2");
    LowerNoUpper("x3");
    LowerNoUpper("x5");
  }

  // ------------------------------------------------------- addi

  const AddiParsed: Parsed := Parsed(I, "addi", Some("x5"), Some("x0"), None, Some("5"))

  lemma AddiTokens()
    ensures ParseTokens(["addi", "x5", "x0", "5"]) == Success(Some(AddiParsed))
  {
    LowerNoUpper("addi");
  }

  lemma AddiWords()
    ensures IsToken("addi") && IsToken("x5") && IsToken("x0") && IsToken("5")
  {
  }

  lemma AddiParses()
    ensures ParseInstruction(AddiLine) == Success(Some(AddiParsed))
  {
    AddiTokens();
    AddiWords();
    ThreeOperands("addi", "x5", "x0", "5", AddiParsed);
  }

  lemma AddiEntry()
    ensures "addi" in IType && "addi" !in RType && "addi" in IEncodings && IEncodings["addi"] == F3Fields(0x13, 0)
  {
    RTypeDisjointFromI();
  }

  lemma AddiOperands()
    ensures Names(AddiParsed.rd, 5) && Names(AddiParsed.rs1, 0) && ImmValue(AddiParsed) == Some(5)
  {
    Registers1To5();
    assert ParseInt("5") == Some(5);
  }

  lemma AddiLayout()
    ensures 0x00500293 == IField("addi", 5) * 0x10_0000 + ((0 * 8 + 0) * 32 + 5) * 128 + 0x13
  {
  }

  lemma AddiWord()
    ensures EncodeWord(Some(AddiParsed)) == Success(Some(0x00500293))
  {
    AddiOperands();
    AddiLayout();
    IValue(AddiParsed, 0x13, 0, 5, 0, 5, 0x00500293);
    AddiEntry();
    DispatchIWord(AddiParsed, 0x13, 0);
  }

  lemma AddiDigits()
    ensures |AddiText| == 8 && IsHexString(AddiText) && HexValue(AddiText) == 0x00500293
  {
    HexValue8(AddiText);
  }

  /** `addi x5, x0, 5` is 0x00500293. */
  lemma AddiVector()
    ensures EncodeLine(AddiLine) == Success(Some(AddiText))
  {
    AddiParses();
    AddiWord();
    AddiDigits();
    LineText(AddiLine, AddiParsed, 0x00500293, AddiText);
  }

  // ------------------------------------------------------- add

  const AddParsed: Parsed := Parsed(R, "add", Some("x1"), Some("x2"), Some("x3"), None)

  lemma AddTokens()
    ensures ParseTokens(["add", "x1", "x2", "x3"]) == Success(Some(AddParsed))
  {
    LowerNoUpper("add");
  }

  lemma AddWords()
    ensures IsToken("add") && IsToken("x1") && IsToken("x2") && IsToken("x3")
  {
  }

  lemma AddParses()
    ensures ParseInstruction(AddLine) == Success(Some(AddParsed))
  {
    AddTokens();
    AddWords();
    ThreeOperands("add", "x1", "x2", "x3", AddParsed);
  }

  lemma AddEntry()
    ensures "add" in REncodings && REncodings["add"] == Tables.RFields(0x33, 0, 0)
  {
  }

  lemma AddOperands()
    ensures Names(AddParsed.rd, 1) && Names(AddParsed.rs1, 2) && Names(AddParsed.rs2, 3)
  {
    Registers1To5();
  }

  lemma AddLayout()
    ensures 0x003100b3 == ((((0 * 32 + 3) * 32 + 2) * 8 + 0) * 32 + 1) * 128 + 0x33
  {
  }

  lemma AddWord()
    ensures EncodeWord(Some(AddParsed)) == Success(Some(0x003100b3))
  {
    AddOperands();
    AddLayout();
    RValue(AddParsed, 0x33, 0, 0, 1, 2, 3, 0x003100b3);
    AddEntry();
    DispatchRWord(AddParsed, 0x33, 0, 0);
  }

  lemma AddDigits()
    ensures |AddText| == 8 && IsHexString(AddText) && HexValue(AddText) == 0x003100b3
  {
    HexValue8(AddText);
  }

  /** `add x1, x2, x3` is 0x003100b3. */
  lemma AddVector()
    ensures EncodeLine(AddLine) == Success(Some(AddText))
  {
    AddParses();
    AddWord();
    AddDigits();
    LineText(AddLine, AddParsed, 0x003100b3, AddText);
  }

  // ------------------------------------------------------- sw

  const SwParsed: Parsed := Parsed(S, "sw", None, Some("x2"), Some("x5"), Some("8"))

  lemma SwOffset()
    ensures MatchOffset("8(x2)") == Some(("8", "x2"))
  {
    MatchOffsetComplete("8", "x2", "");
    assert "8" + "(" + "x2" + ")" + "" == "8(x2)";
  }

  lemma SwTokens()
    ensures ParseTokens(["sw", "x5", "8(x2)"]) == Success(Some(SwParsed))
  {
    LowerNoUpper("sw");
    SwOffset();
    SwFamily();
  }

  lemma SwWords()
    ensures IsToken("sw") && IsToken("x5") && IsToken("8(x2)")
  {
  }

  lemma SwParses()
    ensures ParseInstruction(SwLine) == Success(Some(SwParsed))
  {
    SwTokens();
    SwWords();
    TwoOperands("sw", "x5", "8(x2)", SwParsed);
  }

  lemma SwFamily()
    ensures "sw" in SType && "sw" !in RType && "sw" !in IType && "sw" !in LType
  {
    FamiliesDisjoint();
  }

  lemma SwEntry()
    ensures "sw" in SEncodings && SEncodings["sw"] == F3Fields(0x23, 2)
  {
  }

  lemma SwOperands()
    ensures Names(SwParsed.rs1, 2) && Names(SwParsed.rs2, 5) && ImmValue(SwParsed) == Some(8)
  {
    Registers1To5();
    assert ParseInt("8") == Some(8);
  }

  /** The offset 8 has no bits above bit 4, so it all lands in bits 11-7. */
  lemma SwLayout()
    ensures 0x00512423 == ((((8 / 32 % 128 * 32 + 5) * 32 + 2) * 8 + 2) * 32 + 8 % 32) * 128 + 0x23
  {
  }

  lemma SwWord()
    ensures EncodeWord(Some(SwParsed)) == Success(Some(0x00512423))
  {
    SwOperands();
    SwLayout();
    SValue(SwParsed, 0x23, 2, 2, 5, 8, 0x00512423);
    SwFamily();
    SwEntry();
    DispatchSWord(SwParsed, 0x23, 2);
  }

  lemma SwDigits()
    ensures |SwText| == 8 && IsHexString(SwText) && HexValue(SwText) == 0x00512423
  {
    HexValue8(SwText);
  }

  /** `sw x5, 8(x2)` is 0x00512423: the offset 8 lands in bits 11-7. */
  lemma SwVector()
    ensures EncodeLine(SwLine) == Success(Some(SwText))
  {
    SwParses();
    SwWord();
    SwDigits();
    LineText(SwLine, SwParsed, 0x00512423, SwText);
  }

  // ------------------------------------------------------- jal

  const JalParsed: Parsed := Parsed(J, "jal", Some("x1"), None, None, Some("16"))

  lemma JalTokens()
    ensures ParseTokens(["jal", "x1", "16"]) == Success(Some(JalParsed))
  {
    LowerNoUpper("jal");
  }

  lemma JalWords()
    ensures IsToken("jal") && IsToken("x1") && IsToken("16")
  {
  }

  lemma JalParses()
    ensures ParseInstruction(JalLine) == Success(Some(JalParsed))
  {
    JalTokens();
    JalWords();
    TwoOperands("jal", "x1", "16", JalParsed);
  }

  lemma JalOffset()
    ensures ParseInt("16") == Some(16)
  {
    assert Decimal(16) == "16";
    ParseIntDecimal(16);
  }

  /** The offset 16 has only bit 4 set, which lands in bit 25. */
  lemma JalLayout()
    ensures 0x010000ef == ((((16 / 0x10_0000 % 2 * 1024 + 16 / 2 % 1024) * 2 + 16 / 2048 % 2) * 256 + 16 / 4096 % 256) * 32 + 1) * 128 + 0x6F
  {
  }

  lemma JalOperands()
    ensures Names(JalParsed.rd, 1) && ImmValue(JalParsed) == Some(16)
  {
    LowerNoUpper("x1");
    JalOffset();
  }

  lemma JalWord()
    ensures EncodeWord(Some(JalParsed)) == Success(Some(0x010000ef))
  {
    JalOperands();
    JalLayout();
    JValue(JalParsed, 0x6F, 1, 16, 0x010000ef);
    DispatchJalWord(JalParsed);
  }

  lemma JalDigits()
    ensures |JalText| == 8 && IsHexString(JalText) && HexValue(JalText) == 0x010000ef
  {
    HexValue8(JalText);
  }

  /** `jal x1, 16` is 0x010000ef: offset bits 10-1 land in bits 30-21. */
  lemma JalVector()
    ensures EncodeLine(JalLine) == Success(Some(JalText))
  {
    JalParses();
    JalWord();
    JalDigits();
    LineText(JalLine, JalParsed, 0x010000ef, JalText);
  }

  // ------------------------------------------------------- srai

  const SraiParsed: Parsed := Parsed(I, "srai", Some("x1"), Some("x2"), None, Some("3"))

  lemma SraiTokens()
    ensures ParseTokens(["srai", "x1", "x2", "3"]) == Success(Some(SraiParsed))
  {
    LowerNoUpper("srai");
  }

  lemma SraiWords()
    ensures IsToken("srai") && IsToken("x1") && IsToken("x2") && IsToken("3")
  {
  }

  lemma SraiParses()
    ensures ParseInstruction(SraiLine) == Success(Some(SraiParsed))
  {
    SraiTokens();
    SraiWords();
    ThreeOperands("srai", "x1", "x2", "3", SraiParsed);
  }

  lemma SraiOperands()
    ensures Names(SraiParsed.rd, 1) && Names(SraiParsed.rs1, 2) && ImmValue(SraiParsed) == Some(3)
  {
    Registers1To5();
    assert ParseInt("3") == Some(3);
  }

  /** The amount 3 with bit 10 set, `0x403`, fills the top twelve bits. */
  lemma SraiLayout()
    ensures 0x40315093 == IField("srai", 3) * 0x10_0000 + ((2 * 8 + 5) * 32 + 1) * 128 + 0x13
  {
  }

  lemma SraiWord()
    ensures EncodeWord(Some(SraiParsed)) == Success(Some(0x40315093))
  {
    SraiOperands();
    SraiLayout();
    IValue(SraiParsed, 0x13, 5, 1, 2, 3, 0x40315093);
    ShiftDispatch(SraiParsed);
  }

  lemma SraiDigits()
    ensures |SraiText| == 8 && IsHexString(SraiText) && HexValue(SraiText) == 0x40315093
  {
    HexValue8(SraiText);
  }

  /** `srai x1, x2, 3` is 0x40315093: bit 30 marks the arithmetic shift. */
  lemma SraiVector()
    ensures EncodeLine(SraiLine) == Success(Some(SraiText))
  {
    SraiParses();
    SraiWord();
    SraiDigits();
    LineText(SraiLine, SraiParsed, 0x40315093, SraiText);
  }

  // ------------------------------------------------------- ADDI

  const UpperParsed: Parsed := Parsed(I, "ADDI", Some("x1"), Some("x0"), None, Some("5"))

  lemma UpperParses()
    ensures ParseInstruction(UpperLine) == Success(Some(UpperParsed))
  {
    MnemonicKeptAsWritten("x1", "x0", "5");
    ThreeOperands("ADDI", "x1", "x0", "5", UpperParsed);
  }

  /** A dictionary whose mnemonic is in no family encodes to no word. */
  lemma NoWord(p: Parsed)
    requires !IsMnemonic(p.mnemonic)
    ensures EncodeWord(Some(p)) == Success(None)
  {
    assert "jal" in JType && "jalr" in JType;
  }

  lemma UpperUnknown()
    ensures !IsMnemonic("ADDI")
  {
  }

  /**
   * `ADDI x1, x0, 5` parses, since the parser lower-cases the mnemonic, but
   * the encoder looks up `ADDI` as written and produces no word.
   */
  lemma UpperCaseVector()
    ensures EncodeLine(UpperLine) == Success(None)
  {
    UpperParses();
    UpperUnknown();
    NoWord(UpperParsed);
  }
}
