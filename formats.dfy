/**
 * The six RV32I instruction formats as `encode_instruction` assembles them
 * (Scripts/assembler.py, lines 240-381), and the fields a decoder reads back
 * out of a word, named and placed as in the base-ISA chapter of the RISC-V
 * Unprivileged ISA manual.
 */
module Formats {
  import opened Bits

  // ------------------------------------------------------------ decoding

  function Opcode(w: int): int { Field(w, 0, 7) }
  function Rd(w: int): int { Field(w, 7, 5) }
  function Funct3(w: int): int { Field(w, 12, 3) }
  function Rs1(w: int): int { Field(w, 15, 5) }
  function Rs2(w: int): int { Field(w, 20, 5) }
  function Funct7(w: int): int { Field(w, 25, 7) }

  /** I-immediate: inst[31:20]. */
  function IImm(w: int): int { Field(w, 20, 12) }

  /** S-immediate: inst[31:25] above inst[11:7]. */
  function SImm(w: int): int { Field(w, 25, 7) * 32 + Field(w, 7, 5) }

  /** B-immediate: imm[12] = inst[31], imm[11] = inst[7], imm[10:5] = inst[30:25], imm[4:1] = inst[11:8]; imm[0] is 0. */
  function BImm(w: int): int {
    Field(w, 31, 1) * 4096 + Field(w, 7, 1) * 2048 + Field(w, 25, 6) * 32 + Field(w, 8, 4) * 2
  }

  /** U-immediate: inst[31:12], the upper twenty bits. */
  function UImm(w: int): int { Field(w, 12, 20) }

  /** J-immediate: imm[20] = inst[31], imm[19:12] = inst[19:12], imm[11] = inst[20], imm[10:1] = inst[30:21]; imm[0] is 0. */
  function JImm(w: int): int {
    Field(w, 31, 1) * 0x10_0000 + Field(w, 12, 8) * 4096 + Field(w, 20, 1) * 2048 + Field(w, 21, 10) * 2
  }

  // ------------------------------------------------------------ encoding

  /** Line 240: funct7 at bit 25, rs2 at 20, rs1 at 15, funct3 at 12, rd at 7, then the opcode. */
  function RWord(funct7: int, rs2: int, rs1: int, funct3: int, rd: int, op: int): int {
    BitOr(BitOr(BitOr(BitOr(BitOr(Shl(funct7, 25), Shl(rs2, 20)), Shl(rs1, 15)), Shl(funct3, 12)), Shl(rd, 7)), op)
  }

  /** Lines 265, 282 and 381: the immediate at bit 20, rs1 at 15, funct3 at 12, rd at 7, then the opcode. */
  function IWord(imm: int, rs1: int, funct3: int, rd: int, op: int): int {
    BitOr(BitOr(BitOr(BitOr(Shl(imm, 20), Shl(rs1, 15)), Shl(funct3, 12)), Shl(rd, 7)), op)
  }

  /** Lines 299-303: the immediate split into imm[11:5] and imm[4:0]. */
  function SWord(imm: int, rs2: int, rs1: int, funct3: int, op: int): int {
    var imm11to5 := Mask(Shr(imm, 5), 7);
    var imm4to0 := Mask(imm, 5);
    BitOr(BitOr(BitOr(BitOr(BitOr(Shl(imm11to5, 25), Shl(rs2, 20)), Shl(rs1, 15)), Shl(funct3, 12)), Shl(imm4to0, 7)), op)
  }

  /** Lines 320-326: the immediate split into imm[12], imm[11], imm[10:5] and imm[4:1]. */
  function BWord(imm: int, rs2: int, rs1: int, funct3: int, op: int): int {
    var imm12 := Mask(Shr(imm, 12), 1);
    var imm11 := Mask(Shr(imm, 11), 1);
    var imm10to5 := Mask(Shr(imm, 5), 6);
    var imm4to1 := Mask(Shr(imm, 1), 4);
    BitOr(BitOr(BitOr(BitOr(BitOr(BitOr(BitOr(Shl(imm12, 31), Shl(imm10to5, 25)), Shl(rs2, 20)), Shl(rs1, 15)),
      Shl(funct3, 12)), Shl(imm4to1, 8)), Shl(imm11, 7)), op)
  }

  /** Line 341: the immediate at bit 12, rd at 7, then the opcode. */
  function UWord(imm: int, rd: int, op: int): int {
    BitOr(BitOr(Shl(imm, 12), Shl(rd, 7)), op)
  }

  /** Lines 359-365: the immediate split into imm[20], imm[19:12], imm[11] and imm[10:1]. */
  function JWord(imm: int, rd: int, op: int): int {
    var imm20 := Mask(Shr(imm, 20), 1);
    var imm19to12 := Mask(Shr(imm, 12), 8);
    var imm11 := Mask(Shr(imm, 11), 1);
    var imm10to1 := Mask(Shr(imm, 1), 10);
    BitOr(BitOr(BitOr(BitOr(BitOr(Shl(imm20, 31), Shl(imm10to1, 21)), Shl(imm11, 20)), Shl(imm19to12, 12)), Shl(rd, 7)), op)
  }

  // --------------------------------------------------- R: fields read back

  /** The `|` chain of the R format adds its fields, which do not overlap. */
  lemma RWordSum(funct7: int, rs2: int, rs1: int, funct3: int, rd: int, op: int)
    requires 0 <= rs2 < 32 && 0 <= rs1 < 32 && 0 <= funct3 < 8 && 0 <= rd < 32 && 0 <= op < 128
    ensures RWord(funct7, rs2, rs1, funct3, rd, op) == ((((funct7 * 32 + rs2) * 32 + rs1) * 8 + funct3) * 32 + rd) * 128 + op
  {
    Pow2Values();
    var a1 := funct7 * 32 + rs2;
    var a2 := a1 * 32 + rs1;
    var a3 := a2 * 8 + funct3;
    var a4 := a3 * 32 + rd;
    var t1 := BitOr(Shl(funct7, 25), Shl(rs2, 20));
    var t2 := BitOr(t1, Shl(rs1, 15));
    var t3 := BitOr(t2, Shl(funct3, 12));
    assert t1 == a1 * 0x10_0000 by { OrStep(Shl(funct7, 25), funct7, 5, rs2, 20); }
    assert t2 == a2 * 0x8000 by { OrStep(t1, a1, 5, rs1, 15); }
    assert t3 == a3 * 0x1000 by { OrStep(t2, a2, 3, funct3, 12); }
    assert BitOr(t3, Shl(rd, 7)) == a4 * 128 by { OrStep(t3, a3, 5, rd, 7); }
    OrAdd(a4, 7, op);
  }

  /** Every field of an R-shaped word reads back, and the word fits in 32 bits. */
  lemma RFields(w: int, funct7: int, rs2: int, rs1: int, funct3: int, rd: int, op: int)
    requires 0 <= funct7 < 128 && 0 <= rs2 < 32 && 0 <= rs1 < 32 && 0 <= funct3 < 8 && 0 <= rd < 32 && 0 <= op < 128
    requires w == ((((funct7 * 32 + rs2) * 32 + rs1) * 8 + funct3) * 32 + rd) * 128 + op
    ensures 0 <= w < 0x1_0000_0000 && Low32(w) == w
    ensures Opcode(w) == op && Rd(w) == rd && Funct3(w) == funct3
    ensures Rs1(w) == rs1 && Rs2(w) == rs2 && Funct7(w) == funct7
  {
    assert 0 <= w < 0x1_0000_0000;
    Low32Small(w);
    Pow2Values();
    var a1 := funct7 * 32 + rs2;
    var a2 := a1 * 32 + rs1;
    var a3 := a2 * 8 + funct3;
    var a4 := a3 * 32 + rd;
    assert Field(w, 0, 7) == op by { FieldOf(w, a4, op, 0, 0, 7); }
    assert Field(w, 7, 5) == rd by { FieldOf(w, a3, rd, op, 7, 5); }
    assert Field(w, 12, 3) == funct3 by { FieldOf(w, a2, funct3, rd * 128 + op, 12, 3); }
    assert Field(w, 15, 5) == rs1 by { FieldOf(w, a1, rs1, (funct3 * 32 + rd) * 128 + op, 15, 5); }
    assert Field(w, 20, 5) == rs2 by { FieldOf(w, funct7, rs2, ((rs1 * 8 + funct3) * 32 + rd) * 128 + op, 20, 5); }
    assert Field(w, 25, 7) == funct7 by { FieldOf(w, 0, funct7, (((rs2 * 32 + rs1) * 8 + funct3) * 32 + rd) * 128 + op, 25, 7); }
  }

  /** R format: every field of the word is the value placed there. */
  lemma RFormat(funct7: int, rs2: int, rs1: int, funct3: int, rd: int, op: int)
    requires 0 <= funct7 < 128 && 0 <= rs2 < 32 && 0 <= rs1 < 32 && 0 <= funct3 < 8 && 0 <= rd < 32 && 0 <= op < 128
    ensures var w := RWord(funct7, rs2, rs1, funct3, rd, op);
      0 <= w < 0x1_0000_0000 && Low32(w) == w &&
      Opcode(w) == op && Rd(w) == rd && Funct3(w) == funct3 && Rs1(w) == rs1 && Rs2(w) == rs2 && Funct7(w) == funct7
  {
    RWordSum(funct7, rs2, rs1, funct3, rd, op);
    RFields(RWord(funct7, rs2, rs1, funct3, rd, op), funct7, rs2, rs1, funct3, rd, op);
  }

  // --------------------------------------------------- I: fields read back

  lemma IWordSum(imm: int, rs1: int, funct3: int, rd: int, op: int)
    requires 0 <= rs1 < 32 && 0 <= funct3 < 8 && 0 <= rd < 32 && 0 <= op < 128
    ensures IWord(imm, rs1, funct3, rd, op) == imm * 0x10_0000 + ((rs1 * 8 + funct3) * 32 + rd) * 128 + op
  {
    Pow2Values();
    var a1 := imm * 32 + rs1;
    var a2 := a1 * 8 + funct3;
    var a3 := a2 * 32 + rd;
    var t1 := BitOr(Shl(imm, 20), Shl(rs1, 15));
    var t2 := BitOr(t1, Shl(funct3, 12));
    assert t1 == a1 * 0x8000 by { OrStep(Shl(imm, 20), imm, 5, rs1, 15); }
    assert t2 == a2 * 0x1000 by { OrStep(t1, a1, 3, funct3, 12); }
    assert BitOr(t2, Shl(rd, 7)) == a3 * 128 by { OrStep(t2, a2, 5, rd, 7); }
    OrAdd(a3, 7, op);
  }

  /**
   * I format (also loads and `jalr`): after the final 32-bit mask the fixed
   * fields read back, and the immediate field holds imm mod 2^12, whatever
   * the immediate's range.
   */
  lemma IFormat(imm: int, rs1: int, funct3: int, rd: int, op: int)
    requires 0 <= rs1 < 32 && 0 <= funct3 < 8 && 0 <= rd < 32 && 0 <= op < 128
    ensures var w := Low32(IWord(imm, rs1, funct3, rd, op));
      Opcode(w) == op && Rd(w) == rd && Funct3(w) == funct3 && Rs1(w) == rs1 && IImm(w) == imm % 4096
  {
    Pow2Values();
    var low := ((rs1 * 8 + funct3) * 32 + rd) * 128 + op;
    IWordSum(imm, rs1, funct3, rd, op);
    Low32Shifted(imm, 20, low);
    var w := Low32(IWord(imm, rs1, funct3, rd, op));
    var top := imm % 4096;
    assert w == top * 0x10_0000 + low;
    RFields(w, top / 32, top % 32, rs1, funct3, rd, op);
    assert Field(w, 20, 12) == top by { FieldOf(w, 0, top, low, 20, 12); }
  }

  // --------------------------------------------------- S: fields read back

  /** The S format is the R format with imm[11:5] in place of funct7 and imm[4:0] in place of rd. */
  lemma SIsR(imm: int, rs2: int, rs1: int, funct3: int, op: int)
    ensures SWord(imm, rs2, rs1, funct3, op) == RWord(imm / 32 % 128, rs2, rs1, funct3, imm % 32, op)
  {
    Pow2Values();
  }

  /** S format: the fixed fields read back, and the two halves of the immediate rejoin to imm mod 2^12. */
  lemma SFormat(imm: int, rs2: int, rs1: int, funct3: int, op: int)
    requires 0 <= rs2 < 32 && 0 <= rs1 < 32 && 0 <= funct3 < 8 && 0 <= op < 128
    ensures var w := SWord(imm, rs2, rs1, funct3, op);
      0 <= w < 0x1_0000_0000 && Low32(w) == w &&
      Opcode(w) == op && Funct3(w) == funct3 && Rs1(w) == rs1 && Rs2(w) == rs2 && SImm(w) == imm % 4096
  {
    SIsR(imm, rs2, rs1, funct3, op);
    RFormat(imm / 32 % 128, rs2, rs1, funct3, imm % 32, op);
    DigitSplit(imm, 32, 128);
  }

  // --------------------------------------------------- B: fields read back

  lemma BChainSum(imm12: int, imm10to5: int, rs2: int, rs1: int, funct3: int, imm4to1: int, imm11: int, op: int)
    requires 0 <= imm10to5 < 64 && 0 <= rs2 < 32 && 0 <= rs1 < 32 && 0 <= funct3 < 8
    requires 0 <= imm4to1 < 16 && 0 <= imm11 < 2 && 0 <= op < 128
    ensures BitOr(BitOr(BitOr(BitOr(BitOr(BitOr(BitOr(Shl(imm12, 31), Shl(imm10to5, 25)), Shl(rs2, 20)), Shl(rs1, 15)),
      Shl(funct3, 12)), Shl(imm4to1, 8)), Shl(imm11, 7)), op)
      == ((((((imm12 * 64 + imm10to5) * 32 + rs2) * 32 + rs1) * 8 + funct3) * 16 + imm4to1) * 2 + imm11) * 128 + op
  {
    Pow2Values();
    var a1 := imm12 * 64 + imm10to5;
    var a2 := a1 * 32 + rs2;
    var a3 := a2 * 32 + rs1;
    var a4 := a3 * 8 + funct3;
    var a5 := a4 * 16 + imm4to1;
    var t1 := BitOr(Shl(imm12, 31), Shl(imm10to5, 25));
    var t2 := BitOr(t1, Shl(rs2, 20));
    var t3 := BitOr(t2, Shl(rs1, 15));
    var t4 := BitOr(t3, Shl(funct3, 12));
    var t5 := BitOr(t4, Shl(imm4to1, 8));
    assert t1 == a1 * 0x200_0000 by { OrStep(Shl(imm12, 31), imm12, 6, imm10to5, 25); }
    assert t2 == a2 * 0x10_0000 by { OrStep(t1, a1, 5, rs2, 20); }
    assert t3 == a3 * 0x8000 by { OrStep(t2, a2, 5, rs1, 15); }
    assert t4 == a4 * 0x1000 by { OrStep(t3, a3, 3, funct3, 12); }
    assert t5 == a5 * 0x100 by { OrStep(t4, a4, 4, imm4to1, 8); }
    assert BitOr(t5, Shl(imm11, 7)) == (a5 * 2 + imm11) * 128 by { OrStep(t5, a5, 1, imm11, 7); }
    OrAdd(a5 * 2 + imm11, 7, op);
  }

  lemma BWordSum(imm: int, rs2: int, rs1: int, funct3: int, op: int)
    requires 0 <= rs2 < 32 && 0 <= rs1 < 32 && 0 <= funct3 < 8 && 0 <= op < 128
    ensures var imm12, imm11, imm10to5, imm4to1 := imm / 4096 % 2, imm / 2048 % 2, imm / 32 % 64, imm / 2 % 16;
      BWord(imm, rs2, rs1, funct3, op) ==
        ((((((imm12 * 64 + imm10to5) * 32 + rs2) * 32 + rs1) * 8 + funct3) * 16 + imm4to1) * 2 + imm11) * 128 + op
  {
    Pow2Values();
    BChainSum(imm / 4096 % 2, imm / 32 % 64, rs2, rs1, funct3, imm / 2 % 16, imm / 2048 % 2, op);
  }

  lemma BFields(w: int, imm12: int, imm10to5: int, rs2: int, rs1: int, funct3: int, imm4to1: int, imm11: int, op: int)
    requires 0 <= imm12 < 2 && 0 <= imm10to5 < 64 && 0 <= rs2 < 32 && 0 <= rs1 < 32 && 0 <= funct3 < 8
    requires 0 <= imm4to1 < 16 && 0 <= imm11 < 2 && 0 <= op < 128
    requires w == ((((((imm12 * 64 + imm10to5) * 32 + rs2) * 32 + rs1) * 8 + funct3) * 16 + imm4to1) * 2 + imm11) * 128 + op
    ensures 0 <= w < 0x1_0000_0000 && Low32(w) == w
    ensures Opcode(w) == op && Funct3(w) == funct3 && Rs1(w) == rs1 && Rs2(w) == rs2
    ensures Field(w, 31, 1) == imm12 && Field(w, 25, 6) == imm10to5 && Field(w, 8, 4) == imm4to1 && Field(w, 7, 1) == imm11
  {
    assert 0 <= w < 0x1_0000_0000;
    Low32Small(w);
    Pow2Values();
    var a1 := imm12 * 64 + imm10to5;
    var a2 := a1 * 32 + rs2;
    var a3 := a2 * 32 + rs1;
    var a4 := a3 * 8 + funct3;
    var a5 := a4 * 16 + imm4to1;
    var a6 := a5 * 2 + imm11;
    assert Field(w, 0, 7) == op by { FieldOf(w, a6, op, 0, 0, 7); }
    assert Field(w, 7, 1) == imm11 by { FieldOf(w, a5, imm11, op, 7, 1); }
    assert Field(w, 8, 4) == imm4to1 by { FieldOf(w, a4, imm4to1, imm11 * 128 + op, 8, 4); }
    assert Field(w, 12, 3) == funct3 by { FieldOf(w, a3, funct3, (imm4to1 * 2 + imm11) * 128 + op, 12, 3); }
    assert Field(w, 15, 5) == rs1 by { FieldOf(w, a2, rs1, ((funct3 * 16 + imm4to1) * 2 + imm11) * 128 + op, 15, 5); }
    assert Field(w, 20, 5) == rs2 by { FieldOf(w, a1, rs2, (((rs1 * 8 + funct3) * 16 + imm4to1) * 2 + imm11) * 128 + op, 20, 5); }
    assert Field(w, 25, 6) == imm10to5 by { FieldOf(w, imm12, imm10to5, ((((rs2 * 32 + rs1) * 8 + funct3) * 16 + imm4to1) * 2 + imm11) * 128 + op, 25, 6); }
    assert Field(w, 31, 1) == imm12 by { FieldOf(w, 0, imm12, (((((imm10to5 * 32 + rs2) * 32 + rs1) * 8 + funct3) * 16 + imm4to1) * 2 + imm11) * 128 + op, 31, 1); }
  }

  /** The four pieces of a branch offset rejoin to imm mod 2^13 with bit 0 cleared. */
  lemma BPieces(imm: int)
    ensures imm / 4096 % 2 * 4096 + imm / 2048 % 2 * 2048 + imm / 32 % 64 * 32 + imm / 2 % 16 * 2 == imm % 8192 - imm % 2
  {
    DigitSplit(imm, 2, 16);
    DigitSplit(imm, 32, 64);
    DigitSplit(imm, 2048, 2);
    DigitSplit(imm, 4096, 2);
  }

  /** B format: the fixed fields read back, and the offset reads back as imm mod 2^13 with bit 0 cleared. */
  lemma BFormat(imm: int, rs2: int, rs1: int, funct3: int, op: int)
    requires 0 <= rs2 < 32 && 0 <= rs1 < 32 && 0 <= funct3 < 8 && 0 <= op < 128
    ensures var w := BWord(imm, rs2, rs1, funct3, op);
      0 <= w < 0x1_0000_0000 && Low32(w) == w &&
      Opcode(w) == op && Funct3(w) == funct3 && Rs1(w) == rs1 && Rs2(w) == rs2 && BImm(w) == imm % 8192 - imm % 2
  {
    BWordSum(imm, rs2, rs1, funct3, op);
    BFields(BWord(imm, rs2, rs1, funct3, op), imm / 4096 % 2, imm / 32 % 64, rs2, rs1, funct3, imm / 2 % 16, imm / 2048 % 2, op);
    BPieces(imm);
  }

  // --------------------------------------------------- U: fields read back

  /** After the final mask a U word is imm mod 2^20 above rd and the opcode. */
  lemma UWordValue(imm: int, rd: int, op: int)
    requires 0 <= rd < 32 && 0 <= op < 128
    ensures Low32(UWord(imm, rd, op)) == imm % 0x10_0000 * 4096 + rd * 128 + op
  {
    Pow2Values();
    var low := rd * 128 + op;
    assert UWord(imm, rd, op) == imm * 4096 + low by {
      assert BitOr(Shl(imm, 12), Shl(rd, 7)) == (imm * 32 + rd) * 128 by { OrStep(Shl(imm, 12), imm, 5, rd, 7); }
      OrAdd(imm * 32 + rd, 7, op);
    }
    Low32Shifted(imm, 12, low);
  }

  /** U format: after the final mask the upper twenty bits hold imm mod 2^20. */
  lemma UFormat(imm: int, rd: int, op: int)
    requires 0 <= rd < 32 && 0 <= op < 128
    ensures var w := Low32(UWord(imm, rd, op));
      Opcode(w) == op && Rd(w) == rd && UImm(w) == imm % 0x10_0000
  {
    Pow2Values();
    var low := rd * 128 + op;
    UWordValue(imm, rd, op);
    var top := imm % 0x10_0000;
    var w := Low32(UWord(imm, rd, op));
    assert w == (top * 32 + rd) * 128 + op;
    assert Field(w, 0, 7) == op by { FieldOf(w, top * 32 + rd, op, 0, 0, 7); }
    assert Field(w, 7, 5) == rd by { FieldOf(w, top, rd, op, 7, 5); }
    assert Field(w, 12, 20) == top by { FieldOf(w, 0, top, low, 12, 20); }
  }

  // --------------------------------------------------- J: fields read back

  lemma JChainSum(imm20: int, imm10to1: int, imm11: int, imm19to12: int, rd: int, op: int)
    requires 0 <= imm10to1 < 1024 && 0 <= imm11 < 2 && 0 <= imm19to12 < 256 && 0 <= rd < 32 && 0 <= op < 128
    ensures BitOr(BitOr(BitOr(BitOr(BitOr(Shl(imm20, 31), Shl(imm10to1, 21)), Shl(imm11, 20)), Shl(imm19to12, 12)), Shl(rd, 7)), op)
      == ((((imm20 * 1024 + imm10to1) * 2 + imm11) * 256 + imm19to12) * 32 + rd) * 128 + op
  {
    Pow2Values();
    var a1 := imm20 * 1024 + imm10to1;
    var a2 := a1 * 2 + imm11;
    var a3 := a2 * 256 + imm19to12;
    var a4 := a3 * 32 + rd;
    var t1 := BitOr(Shl(imm20, 31), Shl(imm10to1, 21));
    var t2 := BitOr(t1, Shl(imm11, 20));
    var t3 := BitOr(t2, Shl(imm19to12, 12));
    assert t1 == a1 * 0x20_0000 by { OrStep(Shl(imm20, 31), imm20, 10, imm10to1, 21); }
    assert t2 == a2 * 0x10_0000 by { OrStep(t1, a1, 1, imm11, 20); }
    assert t3 == a3 * 0x1000 by { OrStep(t2, a2, 8, imm19to12, 12); }
    assert BitOr(t3, Shl(rd, 7)) == a4 * 128 by { OrStep(t3, a3, 5, rd, 7); }
    OrAdd(a4, 7, op);
  }

  lemma JWordSum(imm: int, rd: int, op: int)
    requires 0 <= rd < 32 && 0 <= op < 128
    ensures var imm20, imm19to12, imm11, imm10to1 := imm / 0x10_0000 % 2, imm / 4096 % 256, imm / 2048 % 2, imm / 2 % 1024;
      JWord(imm, rd, op) == ((((imm20 * 1024 + imm10to1) * 2 + imm11) * 256 + imm19to12) * 32 + rd) * 128 + op
  {
    Pow2Values();
    JChainSum(imm / 0x10_0000 % 2, imm / 2 % 1024, imm / 2048 % 2, imm / 4096 % 256, rd, op);
  }

  lemma JFields(w: int, imm20: int, imm10to1: int, imm11: int, imm19to12: int, rd: int, op: int)
    requires 0 <= imm20 < 2 && 0 <= imm10to1 < 1024 && 0 <= imm11 < 2 && 0 <= imm19to12 < 256 && 0 <= rd < 32 && 0 <= op < 128
    requires w == ((((imm20 * 1024 + imm10to1) * 2 + imm11) * 256 + imm19to12) * 32 + rd) * 128 + op
    ensures 0 <= w < 0x1_0000_0000 && Low32(w) == w && Opcode(w) == op && Rd(w) == rd
    ensures Field(w, 31, 1) == imm20 && Field(w, 21, 10) == imm10to1 && Field(w, 20, 1) == imm11 && Field(w, 12, 8) == imm19to12
  {
    assert 0 <= w < 0x1_0000_0000;
    Low32Small(w);
    Pow2Values();
    var a1 := imm20 * 1024 + imm10to1;
    var a2 := a1 * 2 + imm11;
    var a3 := a2 * 256 + imm19to12;
    var a4 := a3 * 32 + rd;
    assert Field(w, 0, 7) == op by { FieldOf(w, a4, op, 0, 0, 7); }
    assert Field(w, 7, 5) == rd by { FieldOf(w, a3, rd, op, 7, 5); }
    assert Field(w, 12, 8) == imm19to12 by { FieldOf(w, a2, imm19to12, rd * 128 + op, 12, 8); }
    assert Field(w, 20, 1) == imm11 by { FieldOf(w, a1, imm11, (imm19to12 * 32 + rd) * 128 + op, 20, 1); }
    assert Field(w, 21, 10) == imm10to1 by { FieldOf(w, imm20, imm10to1, ((imm11 * 256 + imm19to12) * 32 + rd) * 128 + op, 21, 10); }
    assert Field(w, 31, 1) == imm20 by { FieldOf(w, 0, imm20, (((imm10to1 * 2 + imm11) * 256 + imm19to12) * 32 + rd) * 128 + op, 31, 1); }
  }

  /** The four pieces of a jump offset rejoin to imm mod 2^21 with bit 0 cleared. */
  lemma JPieces(imm: int)
    ensures imm / 0x10_0000 % 2 * 0x10_0000 + imm / 4096 % 256 * 4096 + imm / 2048 % 2 * 2048 + imm / 2 % 1024 * 2
      == imm % 0x20_0000 - imm % 2
  {
    DigitSplit(imm, 2, 1024);
    DigitSplit(imm, 2048, 2);
    DigitSplit(imm, 4096, 256);
    DigitSplit(imm, 0x10_0000, 2);
  }

  /** J format: opcode and rd read back, and the offset reads back as imm mod 2^21 with bit 0 cleared. */
  lemma JFormat(imm: int, rd: int, op: int)
    requires 0 <= rd < 32 && 0 <= op < 128
    ensures var w := JWord(imm, rd, op);
      0 <= w < 0x1_0000_0000 && Low32(w) == w && Opcode(w) == op && Rd(w) == rd && JImm(w) == imm % 0x20_0000 - imm % 2
  {
    JWordSum(imm, rd, op);
    JFields(JWord(imm, rd, op), imm / 0x10_0000 % 2, imm / 2 % 1024, imm / 2048 % 2, imm / 4096 % 256, rd, op);
    JPieces(imm);
  }

  // ------------------------------------------- signed immediates round-trip

  /** An I immediate in [-2^11, 2^11) is recovered exactly by sign-extending the field. */
  lemma IRoundTrip(imm: int, rs1: int, funct3: int, rd: int, op: int)
    requires 0 <= rs1 < 32 && 0 <= funct3 < 8 && 0 <= rd < 32 && 0 <= op < 128
    requires -2048 <= imm < 2048
    ensures Signed(IImm(Low32(IWord(imm, rs1, funct3, rd, op))), 12) == imm
  {
    IFormat(imm, rs1, funct3, rd, op);
    Pow2Values();
    SignedMod(imm, 12);
  }

  /** An S offset in [-2^11, 2^11) is recovered exactly from its two halves. */
  lemma SRoundTrip(imm: int, rs2: int, rs1: int, funct3: int, op: int)
    requires 0 <= rs2 < 32 && 0 <= rs1 < 32 && 0 <= funct3 < 8 && 0 <= op < 128
    requires -2048 <= imm < 2048
    ensures Signed(SImm(SWord(imm, rs2, rs1, funct3, op)), 12) == imm
  {
    SFormat(imm, rs2, rs1, funct3, op);
    Pow2Values();
    SignedMod(imm, 12);
  }

  /** An even B offset in [-2^12, 2^12) is recovered exactly. */
  lemma BRoundTrip(imm: int, rs2: int, rs1: int, funct3: int, op: int)
    requires 0 <= rs2 < 32 && 0 <= rs1 < 32 && 0 <= funct3 < 8 && 0 <= op < 128
    requires -4096 <= imm < 4096 && imm % 2 == 0
    ensures Signed(BImm(BWord(imm, rs2, rs1, funct3, op)), 13) == imm
  {
    BFormat(imm, rs2, rs1, funct3, op);
    Pow2Values();
    SignedMod(imm, 13);
  }

  /** An upper immediate in [0, 2^20) is recovered exactly. */
  lemma URoundTrip(imm: int, rd: int, op: int)
    requires 0 <= rd < 32 && 0 <= op < 128
    requires 0 <= imm < 0x10_0000
    ensures UImm(Low32(UWord(imm, rd, op))) == imm
  {
    UFormat(imm, rd, op);
  }

  /** An even J offset in [-2^20, 2^20) is recovered exactly. */
  lemma JRoundTrip(imm: int, rd: int, op: int)
    requires 0 <= rd < 32 && 0 <= op < 128
    requires -0x10_0000 <= imm < 0x10_0000 && imm % 2 == 0
    ensures Signed(JImm(JWord(imm, rd, op)), 21) == imm
  {
    JFormat(imm, rd, op);
    Pow2Values();
    SignedMod(imm, 21);
  }

  // ------------------------------ what of the immediate reaches the word

  /** An I word depends on its immediate only modulo 2^12. */
  lemma IModulo(imm1: int, imm2: int, rs1: int, funct3: int, rd: int, op: int)
    requires 0 <= rs1 < 32 && 0 <= funct3 < 8 && 0 <= rd < 32 && 0 <= op < 128
    requires imm1 % 4096 == imm2 % 4096
    ensures Low32(IWord(imm1, rs1, funct3, rd, op)) == Low32(IWord(imm2, rs1, funct3, rd, op))
  {
    Pow2Values();
    var low := ((rs1 * 8 + funct3) * 32 + rd) * 128 + op;
    assert Low32(IWord(imm1, rs1, funct3, rd, op)) == imm1 % 4096 * 0x10_0000 + low by {
      IWordSum(imm1, rs1, funct3, rd, op);
      Low32Shifted(imm1, 20, low);
    }
    assert Low32(IWord(imm2, rs1, funct3, rd, op)) == imm2 % 4096 * 0x10_0000 + low by {
      IWordSum(imm2, rs1, funct3, rd, op);
      Low32Shifted(imm2, 20, low);
    }
  }

  /** A U word depends on its immediate only modulo 2^20. */
  lemma UModulo(imm1: int, imm2: int, rd: int, op: int)
    requires 0 <= rd < 32 && 0 <= op < 128
    requires imm1 % 0x10_0000 == imm2 % 0x10_0000
    ensures Low32(UWord(imm1, rd, op)) == Low32(UWord(imm2, rd, op))
  {
    UWordValue(imm1, rd, op);
    UWordValue(imm2, rd, op);
  }

  /** An S word depends on its immediate only modulo 2^12. */
  lemma SModulo(imm1: int, imm2: int, rs2: int, rs1: int, funct3: int, op: int)
    requires imm1 % 4096 == imm2 % 4096
    ensures SWord(imm1, rs2, rs1, funct3, op) == SWord(imm2, rs2, rs1, funct3, op)
  {
    SIsR(imm1, rs2, rs1, funct3, op);
    SIsR(imm2, rs2, rs1, funct3, op);
    DigitSplit(imm1, 32, 128);
    DigitSplit(imm2, 32, 128);
    DivModUnique(imm1 % 4096, 32, imm1 / 32 % 128, imm1 % 32);
    DivModUnique(imm2 % 4096, 32, imm2 / 32 % 128, imm2 % 32);
  }

  /** The four digits of a branch offset are functions of the offset they make up. */
  lemma BDigits(v: int, imm12: int, imm11: int, imm10to5: int, imm4to1: int)
    requires 0 <= imm12 < 2 && 0 <= imm11 < 2 && 0 <= imm10to5 < 64 && 0 <= imm4to1 < 16
    requires v == imm12 * 4096 + imm11 * 2048 + imm10to5 * 32 + imm4to1 * 2
    ensures imm4to1 == v % 32 / 2 && imm10to5 == v / 32 % 64 && imm11 == v / 32 / 64 % 2 && imm12 == v / 32 / 64 / 2
  {
    DivModUnique(v, 32, imm12 * 128 + imm11 * 64 + imm10to5, imm4to1 * 2);
    DivModUnique(v / 32, 64, imm12 * 2 + imm11, imm10to5);
    DivModUnique(v / 32 / 64, 2, imm12, imm11);
  }

  /** A B word depends on its offset only through bits 1 to 12: modulo 2^13, bit 0 ignored. */
  lemma BModulo(imm1: int, imm2: int, rs2: int, rs1: int, funct3: int, op: int)
    requires 0 <= rs2 < 32 && 0 <= rs1 < 32 && 0 <= funct3 < 8 && 0 <= op < 128
    requires imm1 % 8192 - imm1 % 2 == imm2 % 8192 - imm2 % 2
    ensures BWord(imm1, rs2, rs1, funct3, op) == BWord(imm2, rs2, rs1, funct3, op)
  {
    BWordSum(imm1, rs2, rs1, funct3, op);
    BWordSum(imm2, rs2, rs1, funct3, op);
    BPieces(imm1);
    BPieces(imm2);
    var v := imm1 % 8192 - imm1 % 2;
    BDigits(v, imm1 / 4096 % 2, imm1 / 2048 % 2, imm1 / 32 % 64, imm1 / 2 % 16);
    BDigits(v, imm2 / 4096 % 2, imm2 / 2048 % 2, imm2 / 32 % 64, imm2 / 2 % 16);
  }

  /** The four digits of a jump offset are functions of the offset they make up. */
  lemma JDigits(v: int, imm20: int, imm19to12: int, imm11: int, imm10to1: int)
    requires 0 <= imm20 < 2 && 0 <= imm19to12 < 256 && 0 <= imm11 < 2 && 0 <= imm10to1 < 1024
    requires v == imm20 * 0x10_0000 + imm19to12 * 4096 + imm11 * 2048 + imm10to1 * 2
    ensures imm10to1 == v % 2048 / 2 && imm11 == v / 2048 % 2 && imm19to12 == v / 2048 / 2 % 256 && imm20 == v / 2048 / 2 / 256
  {
    DivModUnique(v, 2048, (imm20 * 256 + imm19to12) * 2 + imm11, imm10to1 * 2);
    DivModUnique(v / 2048, 2, imm20 * 256 + imm19to12, imm11);
    DivModUnique(v / 2048 / 2, 256, imm20, imm19to12);
  }

  /** A J word depends on its offset only through bits 1 to 20: modulo 2^21, bit 0 ignored. */
  lemma JModulo(imm1: int, imm2: int, rd: int, op: int)
    requires 0 <= rd < 32 && 0 <= op < 128
    requires imm1 % 0x20_0000 - imm1 % 2 == imm2 % 0x20_0000 - imm2 % 2
    ensures JWord(imm1, rd, op) == JWord(imm2, rd, op)
  {
    JWordSum(imm1, rd, op);
    JWordSum(imm2, rd, op);
    JPieces(imm1);
    JPieces(imm2);
    var v := imm1 % 0x20_0000 - imm1 % 2;
    JDigits(v, imm1 / 0x10_0000 % 2, imm1 / 4096 % 256, imm1 / 2048 % 2, imm1 / 2 % 1024);
    JDigits(v, imm2 / 0x10_0000 % 2, imm2 / 4096 % 256, imm2 / 2048 % 2, imm2 / 2 % 1024);
  }

  /** In a 32-bit word the I immediate is the funct7 field above the rs2 field, as the shifts use it. */
  lemma ShamtFields(w: int)
    requires 0 <= w < 0x1_0000_0000
    ensures Funct7(w) == IImm(w) / 32 && Rs2(w) == IImm(w) % 32
  {
    Pow2Values();
    DivDiv(w, 0x10_0000, 32);
  }
}
