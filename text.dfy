/**
 * The string operations the assembler relies on: Python's `str.split()`,
 * `str.strip()`, `str.lower()`, `str.replace(',', '')`, `str.index`, `int()`
 * on a decimal token, and the regular expression `(-?\d+)\((\w+)\)` applied
 * with `re.match`. Characters are restricted to ASCII where Python would
 * consult Unicode tables.
 */
module Text {
  import opened Wrappers

  /** `str.isspace()` on ASCII: tab, line feed, vertical tab, form feed, carriage return (9-13), the separators 28-31, and space. */
  predicate IsSpace(c: char) {
    9 <= c as int <= 13 || 28 <= c as int <= 32
  }

  predicate IsDigit(c: char) {
    '0' <= c <= '9'
  }

  /** The regular-expression class `\w` on ASCII. */
  predicate IsWordChar(c: char) {
    'a' <= c <= 'z' || 'A' <= c <= 'Z' || IsDigit(c) || c == '_'
  }

  predicate AllSpace(s: string) {
    forall i :: 0 <= i < |s| ==> IsSpace(s[i])
  }

  predicate NoSpace(s: string) {
    forall i :: 0 <= i < |s| ==> !IsSpace(s[i])
  }

  /** A non-empty run of decimal digits: `\d+`. */
  predicate IsDigits(s: string) {
    |s| > 0 && forall i :: 0 <= i < |s| ==> IsDigit(s[i])
  }

  /** `-?\d+`. */
  predicate IsSignedDigits(s: string) {
    IsDigits(s) || (|s| > 0 && s[0] == '-' && IsDigits(s[1..]))
  }

  /** `\w+`. */
  predicate IsWord(s: string) {
    |s| > 0 && forall i :: 0 <= i < |s| ==> IsWordChar(s[i])
  }

  predicate HasUpper(s: string) {
    exists i :: 0 <= i < |s| && 'A' <= s[i] <= 'Z'
  }

  // ---------------------------------------------------------------- lower()

  function LowerChar(c: char): char {
    if 'A' <= c <= 'Z' then (c as int + 32) as char else c
  }

  /** `str.lower()` on ASCII letters; every other character is kept. */
  function Lower(s: string): (r: string)
    ensures |r| == |s|
  {
    seq(|s|, i requires 0 <= i < |s| => LowerChar(s[i]))
  }

  /** Only lower-case ASCII letters. */
  predicate AllLower(s: string) {
    forall i :: 0 <= i < |s| ==> 'a' <= s[i] <= 'z'
  }

  lemma LowerKeeps(s: string)
    requires AllLower(s)
    ensures Lower(s) == s
  {
    assert forall i :: 0 <= i < |s| ==> Lower(s)[i] == s[i];
  }

  lemma LowerIdempotent(s: string)
    ensures Lower(Lower(s)) == Lower(s)
    ensures !HasUpper(Lower(s))
  {
    assert forall i :: 0 <= i < |s| ==> Lower(Lower(s))[i] == Lower(s)[i];
  }

  // ------------------------------------------------------ replace(',', '')

  /** `str.replace(',', '')`: every comma deleted, nothing put in its place. */
  function DeleteCommas(s: string): (r: string)
    ensures |r| <= |s|
    ensures forall c :: c in r <==> c in s && c != ','
  {
    if s == [] then []
    else (if s[0] == ',' then [] else [s[0]]) + DeleteCommas(s[1..])
  }

  lemma {:induction false} DeleteCommasAppend(a: string, b: string)
    ensures DeleteCommas(a + b) == DeleteCommas(a) + DeleteCommas(b)
  {
    if a != [] {
      assert (a + b)[0] == a[0];
      assert (a + b)[1..] == a[1..] + b;
      DeleteCommasAppend(a[1..], b);
    } else {
      assert a + b == b;
    }
  }

  lemma {:induction false} DeleteCommasNone(s: string)
    requires ',' !in s
    ensures DeleteCommas(s) == s
  {
    if s != [] {
      assert s[0] in s;
      assert forall c :: c in s[1..] ==> c in s;
      DeleteCommasNone(s[1..]);
    }
  }

  // ---------------------------------------------------------------- strip()

  /** `str.lstrip()`. */
  function TrimStart(s: string): (r: string)
    ensures |r| <= |s|
    ensures r == [] || !IsSpace(r[0])
  {
    if |s| > 0 && IsSpace(s[0]) then TrimStart(s[1..]) else s
  }

  /** lstrip() removes a prefix of white space and nothing else. */
  lemma {:induction false} TrimStartDrops(s: string)
    ensures TrimStart(s) == s[|s| - |TrimStart(s)|..]
    ensures AllSpace(s[..|s| - |TrimStart(s)|])
  {
    if |s| > 0 && IsSpace(s[0]) {
      TrimStartDrops(s[1..]);
      assert s[1..][..|s| - 1 - |TrimStart(s)|] == s[1..|s| - |TrimStart(s)|];
    }
  }

  /** `str.rstrip()`. */
  function TrimEnd(s: string): (r: string)
    ensures |r| <= |s|
    ensures r == [] || !IsSpace(r[|r| - 1])
  {
    if |s| > 0 && IsSpace(s[|s| - 1]) then TrimEnd(s[..|s| - 1]) else s
  }

  /** rstrip() removes a suffix of white space and nothing else. */
  lemma {:induction false} TrimEndDrops(s: string)
    ensures TrimEnd(s) == s[..|TrimEnd(s)|]
    ensures AllSpace(s[|TrimEnd(s)|..])
  {
    if |s| > 0 && IsSpace(s[|s| - 1]) {
      TrimEndDrops(s[..|s| - 1]);
      assert s[..|s| - 1][|TrimEnd(s)|..] + [s[|s| - 1]] == s[|TrimEnd(s)|..];
    }
  }

  /** `str.strip()`. */
  function Strip(s: string): (r: string)
    ensures r == [] || (!IsSpace(r[0]) && !IsSpace(r[|r| - 1]))
  {
    var t := TrimStart(s);
    TrimEndDrops(t);
    TrimEnd(t)
  }

  /** Leading white space makes no difference to lstrip. */
  lemma {:induction false} TrimStartSpace(ws: string, x: string)
    requires AllSpace(ws)
    ensures TrimStart(ws + x) == TrimStart(x)
  {
    if ws != [] {
      assert (ws + x)[0] == ws[0];
      assert (ws + x)[1..] == ws[1..] + x;
      TrimStartSpace(ws[1..], x);
    } else {
      assert ws + x == x;
    }
  }

  lemma {:induction false} TrimEndSpace(x: string, ws: string)
    requires AllSpace(ws)
    ensures TrimEnd(x + ws) == TrimEnd(x)
  {
    if ws != [] {
      assert (x + ws)[|x + ws| - 1] == ws[|ws| - 1];
      assert (x + ws)[..|x + ws| - 1] == x + ws[..|ws| - 1];
      TrimEndSpace(x, ws[..|ws| - 1]);
    } else {
      assert x + ws == x;
    }
  }

  /** A string is its stripped form between two runs of white space. */
  lemma StripParts(s: string) returns (lead: string, trail: string)
    ensures s == lead + Strip(s) + trail
    ensures AllSpace(lead) && AllSpace(trail)
  {
    var t := TrimStart(s);
    TrimStartDrops(s);
    TrimEndDrops(t);
    lead := s[..|s| - |t|];
    trail := t[|Strip(s)|..];
    assert s == lead + t;
    assert t == Strip(s) + trail;
    assert lead + t == lead + Strip(s) + trail;
  }

  lemma StripSpace(ws: string, x: string, ws': string)
    requires AllSpace(ws) && AllSpace(ws')
    ensures Strip(ws + x + ws') == Strip(x)
  {
    assert ws + x + ws' == ws + (x + ws');
    TrimStartSpace(ws, x + ws');
    var t := TrimStart(x);
    TrimStartDrops(x);
    var gone := x[..|x| - |t|];
    assert x + ws' == gone + (t + ws');
    TrimStartSpace(gone, t + ws');
    if t == [] {
      assert t + ws' == ws';
      TrimStartAllSpace(ws');
    } else {
      assert (t + ws')[0] == t[0];
      TrimEndSpace(t, ws');
    }
  }

  lemma {:induction false} TrimStartAllSpace(s: string)
    requires AllSpace(s)
    ensures TrimStart(s) == []
  {
    if s != [] {
      TrimStartAllSpace(s[1..]);
    }
  }

  lemma StripIdempotent(s: string)
    ensures Strip(Strip(s)) == Strip(s)
  {
    var t := Strip(s);
    if t != [] {
      assert TrimStart(t) == t;
      assert TrimEnd(t) == t;
    }
  }

  lemma StripAllSpace(s: string)
    requires AllSpace(s)
    ensures Strip(s) == []
  {
    StripSpace(s, [], []);
    assert s + [] + [] == s;
  }

  // ---------------------------------------------------------------- split()

  /** Length of the leading run of non-space characters. */
  function TokenEnd(s: string): (k: nat)
    ensures k <= |s| && NoSpace(s[..k])
    ensures k < |s| ==> IsSpace(s[k])
  {
    if |s| == 0 || IsSpace(s[0]) then 0 else 1 + TokenEnd(s[1..])
  }

  /** `str.split()` with no argument: the maximal runs of non-space characters, in order. */
  function Split(s: string): (r: seq<string>)
    ensures forall i :: 0 <= i < |r| ==> r[i] != [] && NoSpace(r[i])
    decreases |s|
  {
    var t := TrimStart(s);
    if t == [] then []
    else
      var k := TokenEnd(t);
      assert k > 0;
      var rest := Split(t[k..]);
      [t[..k]] + rest
  }

  /** Line 76: the line with every comma deleted, split on runs of white space. */
  function Tokenize(line: string): seq<string> {
    Split(DeleteCommas(line))
  }

  /** A token with neither white space nor a comma. */
  predicate IsToken(t: string) {
    t != [] && NoSpace(t) && ',' !in t
  }

  /** Tokens written one after another, separated by single spaces. */
  function JoinSpaced(tokens: seq<string>): string {
    if |tokens| == 0 then ""
    else if |tokens| == 1 then tokens[0]
    else tokens[0] + " " + JoinSpaced(tokens[1..])
  }

  /** An operand list written the usual way, `a, b, c`. */
  function JoinCommas(tokens: seq<string>): string {
    if |tokens| == 0 then ""
    else if |tokens| == 1 then tokens[0]
    else tokens[0] + ", " + JoinCommas(tokens[1..])
  }

  lemma {:induction false} TokenEndAppend(a: string, b: string)
    requires NoSpace(a) && (b == [] || IsSpace(b[0]))
    ensures TokenEnd(a + b) == |a|
  {
    if a != [] {
      assert (a + b)[1..] == a[1..] + b;
      TokenEndAppend(a[1..], b);
    }
  }

  lemma SplitSpace(ws: string, x: string)
    requires AllSpace(ws)
    ensures Split(ws + x) == Split(x)
  {
    TrimStartSpace(ws, x);
  }

  /** A run that already ends inside s, or at white space after it, is not lengthened by what follows. */
  lemma {:induction false} TokenEndExtend(s: string, x: string)
    requires TokenEnd(s) < |s| || (x != [] && IsSpace(x[0]))
    ensures TokenEnd(s + x) == TokenEnd(s)
  {
    if s == [] {
      assert s + x == x;
    } else if !IsSpace(s[0]) {
      assert (s + x)[1..] == s[1..] + x;
      TokenEndExtend(s[1..], x);
    }
  }

  /** A line of white space holds no tokens. */
  lemma SplitAllSpace(ws: string)
    requires AllSpace(ws)
    ensures Split(ws) == []
  {
    TrimStartAllSpace(ws);
  }

  /** A run of non-space characters is one token. */
  lemma SplitToken(t: string)
    requires t != [] && NoSpace(t)
    ensures Split(t) == [t]
  {
    SplitJoinSpaced([t]);
  }

  /** A line that starts with a token: that token, then the tokens of the rest. */
  lemma SplitStep(s: string)
    requires s != [] && !IsSpace(s[0])
    ensures Split(s) == [s[..TokenEnd(s)]] + Split(s[TokenEnd(s)..])
  {
  }

  /**
   * split() cuts at every run of white space, however long and of whatever
   * characters: the tokens of a line are those before the run, then those after.
   */
  lemma {:induction false} SplitSeparated(a: string, ws: string, b: string)
    requires ws != [] && AllSpace(ws)
    ensures Split(a + ws + b) == Split(a) + Split(b)
    decreases |a|
  {
    var t := TrimStart(a);
    TrimStartDrops(a);
    var gone := a[..|a| - |t|];
    assert a == gone + t;
    assert a + ws + b == gone + (t + ws + b);
    SplitSpace(gone, t + ws + b);
    SplitSpace(gone, t);
    if t == [] {
      assert t + ws + b == ws + b;
      SplitSpace(ws, b);
    } else {
      SplitSeparatedToken(t, ws, b);
    }
  }

  /** The step of SplitSeparated for a line that starts with a token. */
  lemma {:induction false} SplitSeparatedToken(t: string, ws: string, b: string)
    requires ws != [] && AllSpace(ws) && t != [] && !IsSpace(t[0])
    ensures Split(t + ws + b) == Split(t) + Split(b)
    decreases |t|, 0
  {
    var s := t + (ws + b);
    assert s == t + ws + b;
    var k := TokenEnd(t);
    TokenEndExtend(t, ws + b);
    SplitStep(s);
    SplitStep(t);
    var head := t[..k];
    assert s[..k] == head;
    var rest := t[k..];
    assert s[k..] == rest + ws + b;
    SplitSeparated(rest, ws, b);
    var tail := Split(rest + ws + b);
    assert tail == Split(rest) + Split(b);
    assert Split(s) == [head] + tail;
    assert Split(t) == [head] + Split(rest);
    assert [head] + (Split(rest) + Split(b)) == ([head] + Split(rest)) + Split(b);
  }

  /** Tokens with a separator between each two: `tokens[0] + seps[0] + tokens[1] + ...`. */
  function Interleave(tokens: seq<string>, seps: seq<string>): string
    requires |tokens| == |seps| + 1
  {
    if |seps| == 0 then tokens[0]
    else tokens[0] + seps[0] + Interleave(tokens[1..], seps[1..])
  }

  /** Whatever white space separates the tokens of a line, split() gives back exactly those tokens. */
  lemma {:induction false} SplitInterleave(tokens: seq<string>, seps: seq<string>)
    requires |tokens| == |seps| + 1
    requires forall i :: 0 <= i < |tokens| ==> tokens[i] != [] && NoSpace(tokens[i])
    requires forall i :: 0 <= i < |seps| ==> seps[i] != [] && AllSpace(seps[i])
    ensures Split(Interleave(tokens, seps)) == tokens
  {
    SplitToken(tokens[0]);
    if |seps| > 0 {
      SplitInterleave(tokens[1..], seps[1..]);
      SplitSeparated(tokens[0], seps[0], Interleave(tokens[1..], seps[1..]));
      assert tokens == [tokens[0]] + tokens[1..];
    }
  }

  /** Each separator with its commas deleted. */
  function DeleteCommasEach(seps: seq<string>): (r: seq<string>)
    ensures |r| == |seps|
    ensures forall i :: 0 <= i < |seps| ==> r[i] == DeleteCommas(seps[i])
  {
    if |seps| == 0 then [] else [DeleteCommas(seps[0])] + DeleteCommasEach(seps[1..])
  }

  /** Deleting the commas of a line deletes those of its separators and leaves comma-free tokens alone. */
  lemma {:induction false} DeleteCommasInterleave(tokens: seq<string>, seps: seq<string>)
    requires |tokens| == |seps| + 1
    requires forall i :: 0 <= i < |tokens| ==> ',' !in tokens[i]
    ensures DeleteCommas(Interleave(tokens, seps)) == Interleave(tokens, DeleteCommasEach(seps))
  {
    DeleteCommasNone(tokens[0]);
    if |seps| > 0 {
      var rest := Interleave(tokens[1..], seps[1..]);
      DeleteCommasInterleave(tokens[1..], seps[1..]);
      DeleteCommasAppend(tokens[0] + seps[0], rest);
      DeleteCommasAppend(tokens[0], seps[0]);
      assert DeleteCommasEach(seps)[1..] == DeleteCommasEach(seps[1..]);
    }
  }

  /**
   * Line 76 on any spacing: when every separator still holds white space once
   * its commas are gone (`, `, ` ,`, a tab, several spaces), the tokens come back.
   */
  lemma TokenizeInterleave(tokens: seq<string>, seps: seq<string>)
    requires |tokens| == |seps| + 1
    requires forall i :: 0 <= i < |tokens| ==> IsToken(tokens[i])
    requires forall i :: 0 <= i < |seps| ==> DeleteCommas(seps[i]) != [] && AllSpace(DeleteCommas(seps[i]))
    ensures Tokenize(Interleave(tokens, seps)) == tokens
  {
    DeleteCommasInterleave(tokens, seps);
    SplitInterleave(tokens, DeleteCommasEach(seps));
  }

  /** A comma with no white space beside it joins its neighbours into one token: `x1,x2` is the token `x1x2`. */
  lemma CommaJoins(a: string, b: string)
    requires IsToken(a) && IsToken(b)
    ensures Tokenize(a + "," + b) == [a + b]
  {
    DeleteCommasAppend(a + ",", b);
    DeleteCommasAppend(a, ",");
    DeleteCommasNone(a);
    DeleteCommasNone(b);
    assert DeleteCommas(",") == [];
    assert a + [] == a;
    SplitToken(a + b);
  }

  /** split() recovers tokens that were joined with spaces. */
  lemma {:induction false} SplitJoinSpaced(tokens: seq<string>)
    requires forall i :: 0 <= i < |tokens| ==> tokens[i] != [] && NoSpace(tokens[i])
    ensures Split(JoinSpaced(tokens)) == tokens
  {
    if |tokens| == 1 {
      var t := tokens[0];
      assert TrimStart(t) == t;
      TokenEndAppend(t, []);
      assert t + [] == t;
      assert t[|t|..] == [];
    } else if |tokens| > 1 {
      var t, rest := tokens[0], JoinSpaced(tokens[1..]);
      var s := t + " " + rest;
      assert TrimStart(s) == s;
      assert s == t + (" " + rest);
      TokenEndAppend(t, " " + rest);
      assert s[..|t|] == t;
      assert s[|t|..] == " " + rest;
      SplitSpace(" ", rest);
      SplitJoinSpaced(tokens[1..]);
    }
  }

  lemma {:induction false} DeleteCommasJoin(tokens: seq<string>)
    requires forall i :: 0 <= i < |tokens| ==> ',' !in tokens[i]
    ensures DeleteCommas(JoinCommas(tokens)) == JoinSpaced(tokens)
  {
    if |tokens| == 1 {
      DeleteCommasNone(tokens[0]);
    } else if |tokens| > 1 {
      DeleteCommasAppend(tokens[0], ", " + JoinCommas(tokens[1..]));
      DeleteCommasAppend(", ", JoinCommas(tokens[1..]));
      assert DeleteCommas(", ") == " ";
      DeleteCommasNone(tokens[0]);
      DeleteCommasJoin(tokens[1..]);
      assert tokens[0] + ", " + JoinCommas(tokens[1..]) == tokens[0] + (", " + JoinCommas(tokens[1..]));
    }
  }

  /** A line written `mnemonic op1, op2, ...` tokenizes to the mnemonic followed by its operands. */
  lemma TokenizeCanonical(mnemonic: string, operands: seq<string>)
    requires IsToken(mnemonic) && forall i :: 0 <= i < |operands| ==> IsToken(operands[i])
    ensures |operands| > 0 ==> Tokenize(mnemonic + " " + JoinCommas(operands)) == [mnemonic] + operands
  {
    if |operands| > 0 {
      var tokens := [mnemonic] + operands;
      var line := mnemonic + " " + JoinCommas(operands);
      assert DeleteCommas(line) == JoinSpaced(tokens) by {
        DeleteCommasCanonical(mnemonic, operands);
      }
      assert Split(JoinSpaced(tokens)) == tokens by {
        assert forall i :: 0 <= i < |tokens| ==> tokens[i] != [] && NoSpace(tokens[i]) by {
          assert forall i :: 0 < i < |tokens| ==> tokens[i] == operands[i - 1];
        }
        SplitJoinSpaced(tokens);
      }
    }
  }

  lemma DeleteCommasCanonical(mnemonic: string, operands: seq<string>)
    requires ',' !in mnemonic && forall i :: 0 <= i < |operands| ==> ',' !in operands[i]
    requires |operands| > 0
    ensures DeleteCommas(mnemonic + " " + JoinCommas(operands)) == JoinSpaced([mnemonic] + operands)
  {
    var tokens := [mnemonic] + operands;
    assert tokens[1..] == operands;
    DeleteCommasAppend(mnemonic + " ", JoinCommas(operands));
    DeleteCommasAppend(mnemonic, " ");
    DeleteCommasNone(mnemonic);
    assert DeleteCommas(" ") == " ";
    DeleteCommasJoin(operands);
  }

  // ---------------------------------------------------------------- index()

  /** `s.index(c)` when c occurs in s, and |s| when it does not. */
  function FirstIndex(s: string, c: char): (k: nat)
    ensures k <= |s| && c !in s[..k]
    ensures k < |s| <==> c in s
    ensures k < |s| ==> s[k] == c
  {
    if |s| == 0 then 0
    else if s[0] == c then 0
    else 1 + FirstIndex(s[1..], c)
  }

  // ------------------------------------------------------------------ int()

  function DigitValue(c: char): nat
    requires IsDigit(c)
  {
    c as int - '0' as int
  }

  /** The value of a run of decimal digits, most significant first. */
  function DigitsValue(s: string): nat
    requires forall i :: 0 <= i < |s| ==> IsDigit(s[i])
  {
    if s == [] then 0 else 10 * DigitsValue(s[..|s| - 1]) + DigitValue(s[|s| - 1])
  }

  /** What `int()` accepts in a token without spaces: an optional sign, then decimal digits. */
  predicate IsIntLiteral(s: string) {
    IsDigits(s) || (|s| > 0 && (s[0] == '-' || s[0] == '+') && IsDigits(s[1..]))
  }

  /** `int(s)` for a token; any text `int()` refuses is the ValueError Python raises. */
  function ParseInt(s: string): (r: Option<int>)
    ensures r.Some? <==> IsIntLiteral(s)
    ensures IsSignedDigits(s) ==> r.Some?
  {
    if IsDigits(s) then Some(DigitsValue(s))
    else if |s| > 0 && s[0] == '+' && IsDigits(s[1..]) then Some(DigitsValue(s[1..]))
    else if |s| > 0 && s[0] == '-' && IsDigits(s[1..]) then Some(0 - DigitsValue(s[1..]))
    else None
  }

  function DigitChar(d: nat): char
    requires d < 10
  {
    ('0' as int + d) as char
  }

  /** The decimal numeral of n, with a minus sign when n is negative. */
  function Decimal(n: int): string {
    if n < 0 then "-" + Digits(-n) else Digits(n)
  }

  function Digits(n: nat): string
    decreases n
  {
    if n < 10 then [DigitChar(n)] else Digits(n / 10) + [DigitChar(n % 10)]
  }

  lemma {:induction false} DigitsRoundTrip(n: nat)
    ensures IsDigits(Digits(n)) && DigitsValue(Digits(n)) == n
  {
    if n >= 10 {
      DigitsRoundTrip(n / 10);
      var s := Digits(n);
      assert s[..|s| - 1] == Digits(n / 10);
    }
  }

  /** int() reads back every decimal numeral. */
  lemma ParseIntDecimal(n: int)
    ensures ParseInt(Decimal(n)) == Some(n)
  {
    if n < 0 {
      DigitsRoundTrip(-n);
      assert Decimal(n)[1..] == Digits(-n);
    } else {
      DigitsRoundTrip(n);
    }
  }

  // ------------------------------------------- re.match(r'(-?\d+)\((\w+)\)')

  predicate AllDigits(s: string) {
    forall i :: 0 <= i < |s| ==> IsDigit(s[i])
  }

  predicate AllWordChars(s: string) {
    forall i :: 0 <= i < |s| ==> IsWordChar(s[i])
  }

  /** Length of the leading run of digits. */
  function DigitRun(s: string): (k: nat)
    ensures k <= |s| && AllDigits(s[..k])
    ensures k < |s| ==> !IsDigit(s[k])
  {
    if |s| == 0 || !IsDigit(s[0]) then 0
    else
      var k := DigitRun(s[1..]);
      assert forall i :: 0 <= i < k ==> s[..k + 1][i + 1] == s[1..][..k][i];
      1 + k
  }

  /** Length of the leading run of word characters. */
  function WordRun(s: string): (k: nat)
    ensures k <= |s| && AllWordChars(s[..k])
    ensures k < |s| ==> !IsWordChar(s[k])
  {
    if |s| == 0 || !IsWordChar(s[0]) then 0
    else
      var k := WordRun(s[1..]);
      assert forall i :: 0 <= i < k ==> s[..k + 1][i + 1] == s[1..][..k][i];
      1 + k
  }

  /**
   * `re.match(r'(-?\d+)\((\w+)\)', s)`: the two groups, or None when the
   * match fails. The pattern is anchored at the start of s only, so text after
   * the closing parenthesis is ignored. Neither group can backtrack: `\d+`
   * and `\w+` must each end where the next literal character begins.
   */
  function MatchOffset(s: string): Option<(string, string)> {
    MatchDigits(s, if |s| > 0 && s[0] == '-' then 1 else 0)
  }

  /** `\d+\(` from position `start`, then the base register. */
  function MatchDigits(s: string, start: nat): Option<(string, string)>
    requires start <= |s|
  {
    var open := start + DigitRun(s[start..]);
    if open == start || open >= |s| || s[open] != '(' then None else MatchBase(s, open)
  }

  /** `\w+\)` after the opening parenthesis at `open`. */
  function MatchBase(s: string, open: nat): Option<(string, string)>
    requires open < |s|
  {
    var close := open + 1 + WordRun(s[open + 1..]);
    if close == open + 1 || close >= |s| || s[close] != ')' then None
    else Some((s[..open], s[open + 1..close]))
  }

  /** A successful match is a signed numeral and a word in the form `offset(base)`, at the start of s. */
  lemma MatchOffsetSound(s: string)
    requires MatchOffset(s).Some?
    ensures var m := MatchOffset(s).value;
      IsSignedDigits(m.0) && IsWord(m.1) && |m.0| + |m.1| + 2 <= |s| && s[..|m.0| + |m.1| + 2] == m.0 + "(" + m.1 + ")"
  {
    var sign := if |s| > 0 && s[0] == '-' then 1 else 0;
    var open := MatchDigitsSound(s, sign);
    var close := MatchBaseSound(s, open);
    SignedPrefix(s, sign, open);
    PrefixParts(s, open, close);
  }

  lemma SignedPrefix(s: string, sign: nat, open: nat)
    requires sign <= 1 && sign < open <= |s| && (sign == 1 ==> s[0] == '-') && IsDigits(s[sign..open])
    ensures IsSignedDigits(s[..open])
  {
    if sign == 1 {
      assert s[..open][1..] == s[sign..open];
    } else {
      assert s[..open] == s[sign..open];
    }
  }

  lemma PrefixParts(s: string, open: nat, close: nat)
    requires open < close < |s| && s[open] == '(' && s[close] == ')'
    ensures s[..close + 1] == s[..open] + "(" + s[open + 1..close] + ")"
  {
    var t := s[..open] + "(" + s[open + 1..close] + ")";
    assert |t| == close + 1;
    forall i | 0 <= i < close + 1
      ensures s[i] == t[i]
    {
      if i < open {
      } else if i == open {
      } else if i < close {
        assert t[i] == s[open + 1..close][i - open - 1];
      }
    }
  }

  /** `\d+\(` succeeds on a digit run that ends at an opening parenthesis. */
  lemma MatchDigitsSound(s: string, start: nat) returns (open: nat)
    requires start <= |s| && MatchDigits(s, start).Some?
    ensures start < open < |s| && s[open] == '(' && IsDigits(s[start..open]) && MatchDigits(s, start) == MatchBase(s, open)
  {
    var t := s[start..];
    var k := DigitRun(t);
    assert s[start..start + k] == t[..k];
    open := start + k;
  }

  /** `\w+\)` succeeds on a word run that ends at a closing parenthesis. */
  lemma MatchBaseSound(s: string, open: nat) returns (close: nat)
    requires open < |s| && MatchBase(s, open).Some?
    ensures open + 1 < close < |s| && s[close] == ')' && IsWord(s[open + 1..close]) &&
      MatchBase(s, open) == Some((s[..open], s[open + 1..close]))
  {
    var t := s[open + 1..];
    var k := WordRun(t);
    assert s[open + 1..open + 1 + k] == t[..k];
    close := open + 1 + k;
  }

  lemma {:induction false} DigitRunAppend(a: string, b: string)
    requires forall i :: 0 <= i < |a| ==> IsDigit(a[i])
    requires b != [] && !IsDigit(b[0])
    ensures DigitRun(a + b) == |a|
  {
    if a != [] {
      assert (a + b)[1..] == a[1..] + b;
      DigitRunAppend(a[1..], b);
    }
  }

  lemma {:induction false} WordRunAppend(a: string, b: string)
    requires forall i :: 0 <= i < |a| ==> IsWordChar(a[i])
    requires b != [] && !IsWordChar(b[0])
    ensures WordRun(a + b) == |a|
  {
    if a != [] {
      assert (a + b)[1..] == a[1..] + b;
      WordRunAppend(a[1..], b);
    }
  }

  /** Every `offset(base)` prefix matches, whatever follows it. */
  lemma MatchOffsetComplete(offset: string, base: string, rest: string)
    requires IsSignedDigits(offset) && IsWord(base)
    ensures MatchOffset(offset + "(" + base + ")" + rest) == Some((offset, base))
  {
    var after := ")" + rest;
    var tail := "(" + (base + after);
    var s := offset + tail;
    var sign := if offset[0] == '-' then 1 else 0;
    var digits := offset[sign..];
    assert s == offset + "(" + base + ")" + rest && sign == (if |s| > 0 && s[0] == '-' then 1 else 0) by {
      assert s[0] == offset[0];
    }
    assert IsDigits(digits) by {
      if offset[0] == '-' {
        assert !IsDigit(offset[0]);
      }
    }
    assert s[sign..] == digits + tail;
    MatchDigitsAt(s, sign, digits, tail);
    assert s[|offset| + 1..] == base + after;
    MatchBaseAt(s, |offset|, base, after);
    assert s[..|offset|] == offset;
  }

  lemma MatchDigitsAt(s: string, start: nat, digits: string, tail: string)
    requires start <= |s| && s[start..] == digits + tail
    requires IsDigits(digits) && tail != [] && tail[0] == '('
    ensures start + |digits| < |s|
    ensures MatchDigits(s, start) == MatchBase(s, start + |digits|)
  {
    DigitRunAppend(digits, tail);
    assert s[start + |digits|] == tail[0];
  }

  lemma MatchBaseAt(s: string, open: nat, base: string, after: string)
    requires open < |s| && s[open + 1..] == base + after
    requires IsWord(base) && after != [] && after[0] == ')'
    ensures MatchBase(s, open) == Some((s[..open], base))
  {
    WordRunAppend(base, after);
    assert s[open + 1 + |base|] == after[0];
    assert s[open + 1..open + 1 + |base|] == base;
  }

}
