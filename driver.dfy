/**
 * The program around the two passes (Scripts/assembler.py): `cleaner`
 * (lines 34-64) keeps the code part of each source line, `main` (lines
 * 7-29) encodes the cleaned lines in order and writes one line of text per
 * result. Files, `sys.argv` and `print` are outside the model: the source
 * lines come in as a sequence and the output file's text comes out as a
 * string.
 */
module Driver {
  import opened Wrappers
  import opened Text
  import opened Parser
  import opened Encoder
  import opened Hex

  // ------------------------------------------------------------- cleaner

  /** The code part of a line: everything before its first `#`, without surrounding white space. */
  function Uncommented(line: string): string {
    Strip(line[..FirstIndex(line, '#')])
  }

  /** The lines `cleaner` keeps, in their order: each line's code part, when it has one. */
  function CleanAll(lines: seq<string>): seq<string> {
    if |lines| == 0 then []
    else
      var code := Uncommented(lines[|lines| - 1]);
      CleanAll(lines[..|lines| - 1]) + (if code == [] then [] else [code])
  }

  /** What every line `cleaner` returns looks like. */
  predicate IsCleanLine(s: string) {
    s != [] && Strip(s) == s && '#' !in s
  }

  lemma FirstIndexIs(s: string, c: char, k: nat)
    requires k <= |s| && c !in s[..k] && (k < |s| ==> s[k] == c)
    ensures FirstIndex(s, c) == k
  {
  }

  /**
   * The steps of lines 49-58 (strip; skip a blank line or one that starts
   * with `#`; cut at the first `#` and strip again) leave the line's code part.
   */
  lemma CleanSteps(line: string)
    ensures var t := Strip(line);
      (t == [] || t[0] == '#' ==> Uncommented(line) == []) &&
      (t != [] && '#' !in t ==> Uncommented(line) == t) &&
      ('#' in t ==> Uncommented(line) == Strip(t[..FirstIndex(t, '#')]))
  {
    var t := Strip(line);
    var lead, trail := StripParts(line);
    assert '#' !in lead && '#' !in trail;
    if '#' in t {
      var j := FirstIndex(t, '#');
      assert line[..|lead| + j] == lead + t[..j];
      assert line[|lead| + j] == t[j];
      FirstIndexIs(line, '#', |lead| + j);
      StripSpace(lead, t[..j], []);
      assert lead + t[..j] + [] == lead + t[..j];
      if t[0] == '#' {
        assert j == 0;
        assert Strip([]) == [];
      }
    } else {
      FirstIndexIs(line, '#', |line|);
      assert line[..|line|] == line;
      StripIdempotent(line);
    }
  }

  /** Stripping keeps only characters that were there. */
  lemma StripKeeps(s: string, c: char)
    requires c !in s
    ensures c !in Strip(s)
  {
    var lead, trail := StripParts(s);
  }

  /** A code part that is not empty is a clean line. */
  lemma UncommentedClean(line: string)
    ensures Uncommented(line) != [] ==> IsCleanLine(Uncommented(line))
  {
    var cut := line[..FirstIndex(line, '#')];
    StripKeeps(cut, '#');
    StripIdempotent(cut);
  }

  /** A clean line is its own code part. */
  lemma CleanLineFixed(s: string)
    requires IsCleanLine(s)
    ensures Uncommented(s) == s
  {
    FirstIndexIs(s, '#', |s|);
    assert s[..|s|] == s;
  }

  /** Every line kept is non-empty, has no surrounding white space and holds no `#`. */
  lemma {:induction false} CleanAllClean(lines: seq<string>)
    ensures forall i :: 0 <= i < |CleanAll(lines)| ==> IsCleanLine(CleanAll(lines)[i])
  {
    if |lines| > 0 {
      CleanAllClean(lines[..|lines| - 1]);
      UncommentedClean(lines[|lines| - 1]);
    }
  }

  /** Cleaning works line by line and keeps the order: the cleaned halves of a file join up. */
  lemma {:induction false} CleanAllAppend(a: seq<string>, b: seq<string>)
    ensures CleanAll(a + b) == CleanAll(a) + CleanAll(b)
  {
    if |b| == 0 {
      assert a + b == a;
    } else {
      var b' := b[..|b| - 1];
      assert (a + b)[..|a + b| - 1] == a + b';
      assert (a + b)[|a + b| - 1] == b[|b| - 1];
      CleanAllAppend(a, b');
    }
  }

  /** Cleaning a cleaned file changes nothing. */
  lemma {:induction false} CleanAllIdempotent(lines: seq<string>)
    ensures CleanAll(CleanAll(lines)) == CleanAll(lines)
  {
    if |lines| > 0 {
      var init := CleanAll(lines[..|lines| - 1]);
      var code := Uncommented(lines[|lines| - 1]);
      CleanAllIdempotent(lines[..|lines| - 1]);
      assert CleanAll(lines) == init + (if code == [] then [] else [code]);
      if code != [] {
        UncommentedClean(lines[|lines| - 1]);
        CleanLineFixed(code);
        CleanAllAppend(init, [code]);
        assert [code][..0] == [];
        assert CleanAll([code]) == [code];
        assert CleanAll(init + [code]) == init + [code];
      } else {
        assert CleanAll(lines) == init;
      }
    }
  }

  /** `cleaner` after `readlines()`: the loop of lines 46-61. */
  method Clean(lines: seq<string>) returns (clean: seq<string>)
    ensures clean == CleanAll(lines)
  {
    clean := [];
    var i := 0;
    while i < |lines|
      invariant 0 <= i <= |lines|
      invariant clean == CleanAll(lines[..i])
    {
      var line := lines[i];
      assert lines[..i + 1][..i] == lines[..i];
      CleanSteps(line);
      var cleanLine := Strip(line);
      if cleanLine == [] || cleanLine[0] == '#' {
        i := i + 1;
        continue;
      }
      if '#' in cleanLine {
        cleanLine := Strip(cleanLine[..FirstIndex(cleanLine, '#')]);
      }
      if cleanLine != [] {
        clean := clean + [cleanLine];
      }
      i := i + 1;
    }
    assert lines[..|lines|] == lines;
  }

  // ------------------------------------------------------------- main

  /** Lines 21-22 for one cleaned line: parse it, then encode the dictionary. */
  function EncodeLine(line: string): Result<Option<string>, Crash> {
    var parsed :- ParseInstruction(line);
    EncodeInstruction(parsed)
  }

  /**
   * The loop of lines 20-24: every line encoded in order; the first line that
   * raises ends the program with its exception.
   */
  method Assemble(lines: seq<string>) returns (r: Result<seq<Option<string>>, Crash>)
    ensures r.Success? <==> forall i :: 0 <= i < |lines| ==> EncodeLine(lines[i]).Success?
    ensures r.Success? ==> |r.value| == |lines| && forall i :: 0 <= i < |lines| ==> EncodeLine(lines[i]) == Success(r.value[i])
    ensures r.Failure? ==> exists k :: 0 <= k < |lines| && EncodeLine(lines[k]) == Failure(r.error) &&
                                       forall i :: 0 <= i < k ==> EncodeLine(lines[i]).Success?
  {
    var machineCode: seq<Option<string>> := [];
    var i := 0;
    while i < |lines|
      invariant 0 <= i <= |lines| && |machineCode| == i
      invariant forall j :: 0 <= j < i ==> EncodeLine(lines[j]) == Success(machineCode[j])
    {
      var parsed := ParseInstruction(lines[i]);
      if parsed.Failure? {
        assert EncodeLine(lines[i]) == Failure(parsed.error);
        return Failure(parsed.error);
      }
      var encoded := EncodeInstruction(parsed.value);
      if encoded.Failure? {
        assert EncodeLine(lines[i]) == Failure(encoded.error);
        return Failure(encoded.error);
      }
      machineCode := machineCode + [encoded.value];
      i := i + 1;
    }
    return Success(machineCode);
  }

  /** A line's text, when encoding succeeds with one, is eight hexadecimal digits. */
  lemma EncodeLineText(line: string)
    ensures EncodeLine(line).Success? && EncodeLine(line).value.Some? ==>
      |EncodeLine(line).value.value| == 8 && IsHexString(EncodeLine(line).value.value)
  {
  }

  /** The output file: each text followed by a newline. */
  function Listing(code: seq<Option<string>>): string
    requires forall i :: 0 <= i < |code| ==> code[i].Some?
  {
    if |code| == 0 then ""
    else Listing(code[..|code| - 1]) + code[|code| - 1].value + "\n"
  }

  /**
   * Lines 27-29: `instr + '\n'` for each result in turn; a None (a line
   * with no known mnemonic) is a TypeError.
   */
  method WriteCode(code: seq<Option<string>>) returns (r: Result<string, Crash>)
    ensures r.Failure? <==> exists i :: 0 <= i < |code| && code[i].None?
    ensures r.Failure? ==> r.error == TypeError
    ensures r.Success? ==> r == Success(Listing(code))
  {
    var text := "";
    var i := 0;
    while i < |code|
      invariant 0 <= i <= |code|
      invariant forall j :: 0 <= j < i ==> code[j].Some?
      invariant text == Listing(code[..i])
    {
      if code[i].None? {
        return Failure(TypeError);
      }
      assert code[..i + 1][..i] == code[..i];
      text := text + code[i].value + "\n";
      i := i + 1;
    }
    assert code[..|code|] == code;
    return Success(text);
  }

  /**
   * With every text eight characters long, the file holds one nine-character
   * line per result, in order: the text, then a newline.
   */
  lemma {:induction false} ListingLayout(code: seq<Option<string>>)
    requires forall i :: 0 <= i < |code| ==> code[i].Some? && |code[i].value| == 8
    ensures |Listing(code)| == 9 * |code|
    ensures forall i :: 0 <= i < |code| ==>
      Listing(code)[9 * i .. 9 * i + 8] == code[i].value && Listing(code)[9 * i + 8] == '\n'
  {
    if |code| > 0 {
      var init := code[..|code| - 1];
      ListingLayout(init);
      var n := |code| - 1;
      var s := Listing(code);
      assert s == Listing(init) + code[n].value + "\n";
      forall i | 0 <= i < |code|
        ensures s[9 * i .. 9 * i + 8] == code[i].value && s[9 * i + 8] == '\n'
      {
        if i < n {
          assert s[9 * i .. 9 * i + 8] == Listing(init)[9 * i .. 9 * i + 8];
          assert init[i] == code[i];
        } else {
          assert s[9 * i .. 9 * i + 8] == code[n].value;
        }
      }
    }
  }

  /**
   * The whole program on a source file: the output text is there exactly when
   * every cleaned line encodes to a word, and then it holds the words' eight
   * digits and a newline per cleaned line, in order. Otherwise the program
   * ends with the first exception a line raises, or with the TypeError of
   * writing a None.
   */
  method AssembleProgram(source: seq<string>) returns (r: Result<string, Crash>)
    ensures var clean := CleanAll(source);
      r.Success? <==> forall i :: 0 <= i < |clean| ==> EncodeLine(clean[i]).Success? && EncodeLine(clean[i]).value.Some?
    ensures var clean := CleanAll(source);
      r.Success? ==> (|r.value| == 9 * |clean| &&
        forall i :: 0 <= i < |clean| ==>
          r.value[9 * i .. 9 * i + 8] == EncodeLine(clean[i]).value.value && r.value[9 * i + 8] == '\n')
    ensures var clean := CleanAll(source);
      r.Failure? ==> ((exists k :: 0 <= k < |clean| && EncodeLine(clean[k]) == Failure(r.error) &&
                                   forall i :: 0 <= i < k ==> EncodeLine(clean[i]).Success?) ||
        ((forall i :: 0 <= i < |clean| ==> EncodeLine(clean[i]).Success?) && r.error == TypeError))
  {
    var clean := Clean(source);
    var assembled := Assemble(clean);
    if assembled.Failure? {
      return Failure(assembled.error);
    }
    var code := assembled.value;
    r := WriteCode(code);
    if r.Success? {
      forall i | 0 <= i < |code|
        ensures code[i].Some? && |code[i].value| == 8
      {
        EncodeLineText(clean[i]);
      }
      ListingLayout(code);
    }
  }
}
