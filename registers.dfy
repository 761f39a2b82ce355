/**
 * Register names (Scripts/assembler.py, register_to_number): the numeric
 * names `x0`..`x31`, the ABI names of the RISC-V calling convention, and the
 * extra alias `fp` for `s0`, all looked up after lower-casing.
 */
module Registers {
  import opened Wrappers
  import opened Text

  /** A register index of RV32I. */
  type RegIndex = i: int | 0 <= i < 32

  /**
   * The assembler's register dictionary as a lookup, entry for entry and in
   * the dictionary's order: the index stored under `key`, or None for a key
   * the dictionary does not hold.
   */
  function RegisterTable(key: string): Option<RegIndex> {
    match key
    case "x0" => Some(0) case "zero" => Some(0)
    case "x1" => Some(1) case "ra" => Some(1)
    case "x2" => Some(2) case "sp" => Some(2)
    case "x3" => Some(3) case "gp" => Some(3)
    case "x4" => Some(4) case "tp" => Some(4)
    case "x5" => Some(5) case "t0" => Some(5)
    case "x6" => Some(6) case "t1" => Some(6)
    case "x7" => Some(7) case "t2" => Some(7)
    case "x8" => Some(8) case "s0" => Some(8) case "fp" => Some(8)
    case "x9" => Some(9) case "s1" => Some(9)
    case "x10" => Some(10) case "a0" => Some(10)
    case "x11" => Some(11) case "a1" => Some(11)
    case "x12" => Some(12) case "a2" => Some(12)
    case "x13" => Some(13) case "a3" => Some(13)
    case "x14" => Some(14) case "a4" => Some(14)
    case "x15" => Some(15) case "a5" => Some(15)
    case "x16" => Some(16) case "a6" => Some(16)
    case "x17" => Some(17) case "a7" => Some(17)
    case "x18" => Some(18) case "s2" => Some(18)
    case "x19" => Some(19) case "s3" => Some(19)
    case "x20" => Some(20) case "s4" => Some(20)
    case "x21" => Some(21) case "s5" => Some(21)
    case "x22" => Some(22) case "s6" => Some(22)
    case "x23" => Some(23) case "s7" => Some(23)
    case "x24" => Some(24) case "s8" => Some(24)
    case "x25" => Some(25) case "s9" => Some(25)
    case "x26" => Some(26) case "s10" => Some(26)
    case "x27" => Some(27) case "s11" => Some(27)
    case "x28" => Some(28) case "t3" => Some(28)
    case "x29" => Some(29) case "t4" => Some(29)
    case "x30" => Some(30) case "t5" => Some(30)
    case "x31" => Some(31) case "t6" => Some(31)
    case _ => None
  }

  /**
   * `register_to_number`: lower-cases the name and looks it up. A name that is
   * not in the dictionary falls off the end of the function, which returns None.
   */
  function RegisterToNumber(name: string): (r: Option<RegIndex>)
    ensures r.Some? ==> Denotes(Lower(name), r.value)
  {
    var key := Lower(name);
    TableDenotes(key);
    RegisterTable(key)
  }

  // ------------------------------------------------------------ reference

  /** `x0`..`x31`, in index order. */
  const NumericNames: seq<string> := [
    "x0", "x1", "x2", "x3", "x4", "x5", "x6", "x7", "x8", "x9", "x10", "x11", "x12", "x13", "x14", "x15",
    "x16", "x17", "x18", "x19", "x20", "x21", "x22", "x23", "x24", "x25", "x26", "x27", "x28", "x29", "x30", "x31"]

  /** The ABI name of each register, in index order. */
  const AbiNames: seq<string> := [
    "zero", "ra", "sp", "gp", "tp", "t0", "t1", "t2", "s0", "s1", "a0", "a1", "a2", "a3", "a4", "a5",
    "a6", "a7", "s2", "s3", "s4", "s5", "s6", "s7", "s8", "s9", "s10", "s11", "t3", "t4", "t5", "t6"]

  /** The names that denote register `i`: its numeric name, its ABI name and, for 8, `fp`. */
  predicate Denotes(key: string, i: RegIndex) {
    key == NumericNames[i] || key == AbiNames[i] || (i == 8 && key == "fp")
  }

  // --------------------------------------------------------------- lemmas

  /** A name with no upper-case letter is its own lower-case form. */
  lemma LowerNoUpper(s: string)
    requires !HasUpper(s)
    ensures Lower(s) == s
  {
    assert forall i :: 0 <= i < |s| ==> Lower(s)[i] == s[i];
  }

  /** Every dictionary entry maps a name to the register it denotes. */
  lemma TableDenotes(key: string)
    ensures RegisterTable(key).Some? ==> Denotes(key, RegisterTable(key).value)
  {
    var r := RegisterTable(key);
    if r.Some? {
      if r.value < 8 {
        TableDenotes0To7(key);
      } else if r.value < 16 {
        TableDenotes8To15(key);
      } else {
        TableDenotes16To31(key);
      }
    }
  }

  // The per-range helpers here and below keep each query over the 65-entry
  // match small enough for the solver; together they cover every index.
  lemma TableDenotes0To7(key: string)
    requires RegisterTable(key).Some? && RegisterTable(key).value < 8
    ensures Denotes(key, RegisterTable(key).value)
  {
  }

  lemma TableDenotes8To15(key: string)
    requires RegisterTable(key).Some? && 8 <= RegisterTable(key).value < 16
    ensures Denotes(key, RegisterTable(key).value)
  {
  }

  lemma TableDenotes16To31(key: string)
    requires RegisterTable(key).Some? && 16 <= RegisterTable(key).value
    ensures Denotes(key, RegisterTable(key).value)
  {
  }

  /** The dictionary holds every register under its numeric name and its ABI name. */
  lemma NamesInTable(i: RegIndex)
    ensures RegisterTable(NumericNames[i]) == Some(i) && RegisterTable(AbiNames[i]) == Some(i)
  {
    if i < 8 { NamesInTable0To7(i); }
    else if i < 16 { NamesInTable8To15(i); }
    else if i < 24 { NamesInTable16To23(i); }
    else { NamesInTable24To31(i); }
  }

  lemma NamesInTable0To7(i: RegIndex)
    requires 0 <= i <= 7
    ensures RegisterTable(NumericNames[i]) == Some(i) && RegisterTable(AbiNames[i]) == Some(i)
  {
    if i == 0 { }
    else if i == 1 { }
    else if i == 2 { }
    else if i == 3 { }
    else if i == 4 { }
    else if i == 5 { }
    else if i == 6 { }
    else if i == 7 { }
  }

  lemma NamesInTable8To15(i: RegIndex)
    requires 8 <= i <= 15
    ensures RegisterTable(NumericNames[i]) == Some(i) && RegisterTable(AbiNames[i]) == Some(i)
  {
    if i == 8 { }
    else if i == 9 { }
    else if i == 10 { }
    else if i == 11 { }
    else if i == 12 { }
    else if i == 13 { }
    else if i == 14 { }
    else if i == 15 { }
  }

  lemma NamesInTable16To23(i: RegIndex)
    requires 16 <= i <= 23
    ensures RegisterTable(NumericNames[i]) == Some(i) && RegisterTable(AbiNames[i]) == Some(i)
  {
    if i == 16 { }
    else if i == 17 { }
    else if i == 18 { }
    else if i == 19 { }
    else if i == 20 { }
    else if i == 21 { }
    else if i == 22 { }
    else if i == 23 { }
  }

  lemma NamesInTable24To31(i: RegIndex)
    requires 24 <= i <= 31
    ensures RegisterTable(NumericNames[i]) == Some(i) && RegisterTable(AbiNames[i]) == Some(i)
  {
    if i == 24 { }
    else if i == 25 { }
    else if i == 26 { }
    else if i == 27 { }
    else if i == 28 { }
    else if i == 29 { }
    else if i == 30 { }
    else if i == 31 { }
  }

  /** Resolution ignores case: a name and its lower-case form denote the same register. */
  lemma CaseInsensitive(name: string)
    ensures RegisterToNumber(name) == RegisterToNumber(Lower(name))
  {
    LowerIdempotent(name);
  }

  /** A name resolves to a register exactly when its lower-case form denotes that register. */
  lemma ResolvesIff(name: string, i: RegIndex)
    ensures RegisterToNumber(name) == Some(i) <==> Denotes(Lower(name), i)
  {
    if Denotes(Lower(name), i) {
      NamesInTable(i);
    }
  }

  /** No name denotes two registers. */
  lemma DistinctNames(key: string, i: RegIndex, j: RegIndex)
    requires Denotes(key, i) && Denotes(key, j)
    ensures i == j
  {
    NamesInTable(i);
    NamesInTable(j);
  }

  /** A name the dictionary does not hold, such as `x32`, resolves to None. */
  lemma UnknownNumericName()
    ensures RegisterToNumber("x32") == None
  {
    LowerNoUpper("x32");
  }

  /** A name outside the calling convention, such as `pc`, resolves to None. */
  lemma UnknownAbiName()
    ensures RegisterToNumber("pc") == None
  {
    assert Lower("pc") == "pc" by {
      assert Lower("pc")[0] == 'p' && Lower("pc")[1] == 'c';
    }
  }

  /** The empty name resolves to None. */
  lemma EmptyName()
    ensures RegisterToNumber("") == None
  {
    assert Lower("") == "";
  }

  /** `a0` is the ABI name of `x10`. */
  lemma ArgumentAlias()
    ensures RegisterToNumber("a0") == RegisterToNumber("x10") == Some(10)
  {
    LowerNoUpper("a0");
    LowerNoUpper("x10");
    NamesInTable(10);
  }

  /** `s0` and `fp` both name `x8`. */
  lemma FramePointerAlias()
    ensures RegisterToNumber("s0") == RegisterToNumber("fp") == RegisterToNumber("x8") == Some(8)
  {
    LowerNoUpper("s0");
    LowerNoUpper("fp");
    LowerNoUpper("x8");
    NamesInTable(8);
  }

  /** Upper-case spellings resolve like their lower-case forms. */
  lemma UpperCaseAlias()
    ensures RegisterToNumber("A0") == Some(10) && RegisterToNumber("ZERO") == Some(0)
  {
    assert Lower("A0") == AbiNames[10] by {
      assert Lower("A0")[0] == 'a';
    }
    assert Lower("ZERO") == AbiNames[0] by {
      assert Lower("ZERO")[0] == 'z';
    }
    NamesInTable(10);
    NamesInTable(0);
  }
}
