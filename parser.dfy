/**
 * `parse_instruction` (Scripts/assembler.py, lines 70-216): one cleaned line
 * of assembly becomes the dictionary the encoder reads, or None for a
 * mnemonic the assembler does not know. The family is chosen on the
 * lower-cased mnemonic, but the dictionary keeps the mnemonic as written.
 */
module Parser {
  import opened Wrappers
  import opened Text
  import opened Tables

  /** The Python exceptions a line can raise on its way through the assembler. */
  datatype Crash =
    | IndexError        // a token the line does not have
    | AttributeError    // `.group` on the None of a failed `re.match`
    | UnboundLocalError // `jal`/`jalr` with a token count neither branch handles
    | ValueError        // `int()` of a token that is not a decimal numeral
    | TypeError         // a None where a dictionary or an integer is needed
    | KeyError          // a dictionary entry that is not there

  /** The `'type'` entry: R, I, S, L, B, U, J or JALR. */
  datatype Kind = R | I | S | L | B | U | J | Jalr

  /**
   * A parsed-instruction dictionary. `mnemonic` is its `'opcode'` entry;
   * an operand entry the dictionary does not have is None.
   */
  datatype Parsed = Parsed(kind: Kind, mnemonic: string,
                           rd: Option<string>, rs1: Option<string>, rs2: Option<string>, imm: Option<string>)

  /** The family `parse_instruction` picks for a lower-cased mnemonic; None for an unknown one. */
  function FamilyOf(op: string): (k: Option<Kind>)
    ensures k.Some? <==> IsMnemonic(op)
  {
    if op in RType then Some(R)
    else if op in IType then Some(I)
    else if op in SType then Some(S)
    else if op in LType then Some(L)
    else if op in BType then Some(B)
    else if op in UType then Some(U)
    else if op == "jal" then Some(J)
    else if op == "jalr" then Some(Jalr)
    else None
  }

  /** The operand entries a dictionary of each kind has, and no others. */
  predicate HasOperands(p: Parsed) {
    match p.kind
    case R    => p.rd.Some? && p.rs1.Some? && p.rs2.Some? && p.imm.None?
    case I    => p.rd.Some? && p.rs1.Some? && p.rs2.None? && p.imm.Some?
    case S    => p.rd.None? && p.rs1.Some? && p.rs2.Some? && p.imm.Some?
    case L    => p.rd.Some? && p.rs1.Some? && p.rs2.None? && p.imm.Some?
    case B    => p.rd.None? && p.rs1.Some? && p.rs2.Some? && p.imm.Some?
    case U    => p.rd.Some? && p.rs1.None? && p.rs2.None? && p.imm.Some?
    case J    => p.rd.Some? && p.rs1.None? && p.rs2.None? && p.imm.Some?
    case Jalr => p.rd.Some? && p.rs1.Some? && p.rs2.None? && p.imm.Some?
  }

  /** The token counts each family accepts without an IndexError or UnboundLocalError. */
  predicate AcceptsCount(k: Kind, n: nat) {
    match k
    case R | I | B => n >= 4
    case S | L | U => n >= 3
    case J         => n == 2 || n == 3
    case Jalr      => n == 3 || n == 4
  }

  /** Line 76 onwards: the line with its commas deleted, split on white space, then parsed. */
  function ParseInstruction(instruction: string): Result<Option<Parsed>, Crash> {
    ParseTokens(Tokenize(instruction))
  }

  /** The dictionary of a load or store, built from `instr[2]` matched as `offset(base)`. */
  function ParseOffset(kind: Kind, instr: seq<string>): (r: Result<Option<Parsed>, Crash>)
    requires kind == S || kind == L
    requires |instr| >= 3
    ensures r.Failure? <==> MatchOffset(instr[2]).None?
    ensures r.Failure? ==> r.error == AttributeError
    ensures r.Success? ==> r.value.Some? && r.value.value.kind == kind && r.value.value.mnemonic == instr[0]
  {
    match MatchOffset(instr[2])
    case None => Failure(AttributeError)
    case Some((offset, base)) =>
      if kind == S then Success(Some(Parsed(S, instr[0], None, Some(base), Some(instr[1]), Some(offset))))
      else Success(Some(Parsed(L, instr[0], Some(instr[1]), Some(base), None, Some(offset))))
  }

  /** `parse_instruction` after tokenizing: `instr` is the token list. */
  function ParseTokens(instr: seq<string>): (r: Result<Option<Parsed>, Crash>)
    ensures |instr| == 0 ==> r == Failure(IndexError)
    ensures |instr| > 0 ==> (r == Success(None) <==> !IsMnemonic(Lower(instr[0])))
    ensures r.Success? && r.value.Some? ==>
      var p := r.value.value;
      p.mnemonic == instr[0] && FamilyOf(Lower(instr[0])) == Some(p.kind) && HasOperands(p)
  {
    if |instr| == 0 then Failure(IndexError)
    else
      var op := Lower(instr[0]);
      if op in RType then
        if |instr| < 4 then Failure(IndexError)
        else Success(Some(Parsed(R, instr[0], Some(instr[1]), Some(instr[2]), Some(instr[3]), None)))
      else if op in IType then
        if |instr| < 4 then Failure(IndexError)
        else Success(Some(Parsed(I, instr[0], Some(instr[1]), Some(instr[2]), None, Some(instr[3]))))
      else if op in SType then
        if |instr| < 3 then Failure(IndexError) else ParseOffset(S, instr)
      else if op in LType then
        if |instr| < 3 then Failure(IndexError) else ParseOffset(L, instr)
      else if op in BType then
        if |instr| < 4 then Failure(IndexError)
        else Success(Some(Parsed(B, instr[0], None, Some(instr[1]), Some(instr[2]), Some(instr[3]))))
      else if op in UType then
        if |instr| < 3 then Failure(IndexError)
        else Success(Some(Parsed(U, instr[0], Some(instr[1]), None, None, Some(instr[2]))))
      else if op in JType then
        if op == "jal" then
          if |instr| == 2 then Success(Some(Parsed(J, instr[0], Some("x1"), None, None, Some(instr[1]))))
          else if |instr| == 3 then Success(Some(Parsed(J, instr[0], Some(instr[1]), None, None, Some(instr[2]))))
          else Failure(UnboundLocalError)
        else
          if |instr| == 3 then Success(Some(Parsed(Jalr, instr[0], Some(instr[1]), Some(instr[2]), None, Some("0"))))
          else if |instr| == 4 then Success(Some(Parsed(Jalr, instr[0], Some(instr[1]), Some(instr[2]), None, Some(instr[3]))))
          else Failure(UnboundLocalError)
      else Success(None)
  }

  // ------------------------------------------------------------ outcomes

  /**
   * For a known mnemonic the token count alone decides between success and
   * an IndexError or UnboundLocalError, except that a load or store also
   * fails with an AttributeError when its second operand is not `offset(base)`.
   */
  lemma ParseCount(instr: seq<string>, k: Kind)
    requires |instr| > 0 && FamilyOf(Lower(instr[0])) == Some(k)
    ensures !AcceptsCount(k, |instr|) ==>
      ParseTokens(instr) == Failure(if k == J || k == Jalr then UnboundLocalError else IndexError)
    ensures AcceptsCount(k, |instr|) && k != S && k != L ==> ParseTokens(instr).Success?
    ensures AcceptsCount(k, |instr|) && (k == S || k == L) ==>
      (ParseTokens(instr).Success? <==> MatchOffset(instr[2]).Some?) &&
      (ParseTokens(instr).Failure? ==> ParseTokens(instr).error == AttributeError)
  {
    RTypeDisjoint();
    ITypeDisjoint();
    LSBTypeDisjoint();
  }

  /** A line whose mnemonic is in no family parses to None, whatever follows it. */
  lemma UnknownMnemonic(instruction: string)
    requires |Tokenize(instruction)| > 0 && !IsMnemonic(Lower(Tokenize(instruction)[0]))
    ensures ParseInstruction(instruction) == Success(None)
  {
  }

  /** `jal offset` links through `x1`. */
  lemma JalLinksRa(target: string)
    ensures ParseTokens(["jal", target]) == Success(Some(Parsed(J, "jal", Some("x1"), None, None, Some(target))))
  {
    assert Lower("jal") == "jal" by {
      LowerKeeps("jal");
    }
  }

  /** `jalr rd, rs1` jumps with offset 0. */
  lemma JalrOffsetZero(rd: string, rs1: string)
    ensures ParseTokens(["jalr", rd, rs1]) == Success(Some(Parsed(Jalr, "jalr", Some(rd), Some(rs1), None, Some("0"))))
  {
    assert Lower("jalr") == "jalr" by {
      LowerKeeps("jalr");
    }
  }

  /** An upper-case mnemonic picks its family, and the dictionary keeps it as written. */
  lemma MnemonicKeptAsWritten(rd: string, rs1: string, imm: string)
    ensures ParseTokens(["ADDI", rd, rs1, imm]) == Success(Some(Parsed(I, "ADDI", Some(rd), Some(rs1), None, Some(imm))))
  {
    assert Lower("ADDI") == "addi" by {
      var l := Lower("ADDI");
      assert l[0] == 'a' && l[1] == 'd' && l[2] == 'd' && l[3] == 'i';
    }
  }

  /** A store whose address is not `offset(base)` raises AttributeError. */
  lemma MalformedOffset(rs2: string, address: string)
    requires MatchOffset(address).None?
    ensures ParseTokens(["sw", rs2, address]) == Failure(AttributeError)
  {
    LowerKeeps("sw");
  }

  // ------------------------------------------------------------ round trip

  /** The operand tokens of a dictionary, in the order assembly syntax writes them. */
  function Operands(p: Parsed): seq<string>
    requires HasOperands(p)
  {
    match p.kind
    case R    => [p.rd.value, p.rs1.value, p.rs2.value]
    case I    => [p.rd.value, p.rs1.value, p.imm.value]
    case S    => [p.rs2.value, p.imm.value + "(" + p.rs1.value + ")"]
    case L    => [p.rd.value, p.imm.value + "(" + p.rs1.value + ")"]
    case B    => [p.rs1.value, p.rs2.value, p.imm.value]
    case U    => [p.rd.value, p.imm.value]
    case J    => [p.rd.value, p.imm.value]
    case Jalr => [p.rd.value, p.rs1.value, p.imm.value]
  }

  /** A dictionary written out as a line: the mnemonic, a space, the operands separated by commas. */
  function Render(p: Parsed): string
    requires HasOperands(p)
  {
    p.mnemonic + " " + JoinCommas(Operands(p))
  }

  /**
   * The dictionaries `parse_instruction` can produce from a well-written line:
   * a known mnemonic of the dictionary's kind, operands that are single tokens,
   * and for loads and stores a numeral offset and a word base register.
   */
  predicate WellFormed(p: Parsed) {
    IsToken(p.mnemonic) && FamilyOf(Lower(p.mnemonic)) == Some(p.kind) && HasOperands(p) &&
    (p.rd.Some? ==> IsToken(p.rd.value)) && (p.rs2.Some? ==> IsToken(p.rs2.value)) &&
    if p.kind == S || p.kind == L then IsSignedDigits(p.imm.value) && IsWord(p.rs1.value)
    else (p.rs1.Some? ==> IsToken(p.rs1.value)) && (p.imm.Some? ==> IsToken(p.imm.value))
  }

  lemma OffsetIsToken(offset: string, base: string)
    requires IsSignedDigits(offset) && IsWord(base)
    ensures IsToken(offset + "(" + base + ")")
  {
    var t := offset + "(" + base + ")";
    assert forall i :: 0 <= i < |t| ==> t[i] == '(' || t[i] == ')' || t[i] == '-' || IsDigit(t[i]) || IsWordChar(t[i]) by {
      forall i | 0 <= i < |t|
        ensures t[i] == '(' || t[i] == ')' || t[i] == '-' || IsDigit(t[i]) || IsWordChar(t[i])
      {
        if i < |offset| {
          assert t[i] == offset[i];
          if i > 0 && !IsDigits(offset) {
            assert offset[i] == offset[1..][i - 1];
          }
        } else if i > |offset| && i < |offset| + 1 + |base| {
          assert t[i] == base[i - |offset| - 1];
        }
      }
    }
  }

  /** Parsing the rendered line gives back the dictionary: rendering and parsing are inverse. */
  lemma ParseRender(p: Parsed)
    requires WellFormed(p)
    ensures ParseInstruction(Render(p)) == Success(Some(p))
  {
    var ops := Operands(p);
    if p.kind == S || p.kind == L {
      OffsetIsToken(p.imm.value, p.rs1.value);
    }
    TokenizeCanonical(p.mnemonic, ops);
    ParseOperands(p);
  }

  /** The token list of a well-formed dictionary parses back to it. */
  lemma ParseOperands(p: Parsed)
    requires WellFormed(p)
    ensures ParseTokens([p.mnemonic] + Operands(p)) == Success(Some(p))
  {
    RTypeDisjoint();
    ITypeDisjoint();
    LSBTypeDisjoint();
    if p.kind == S || p.kind == L {
      MatchOffsetComplete(p.imm.value, p.rs1.value, "");
      assert p.imm.value + "(" + p.rs1.value + ")" + "" == p.imm.value + "(" + p.rs1.value + ")";
    }
  }
}
