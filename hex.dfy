/**
 * The text form of a machine word: Python's `f"{w:08x}"`, eight lower-case
 * hexadecimal digits, zero-padded on the left.
 */
module Hex {
  import opened Bits

  predicate IsHexChar(c: char) {
    '0' <= c <= '9' || 'a' <= c <= 'f'
  }

  /** Only lower-case hexadecimal digits. */
  predicate IsHexString(s: string) {
    forall i :: 0 <= i < |s| ==> IsHexChar(s[i])
  }

  /** The lower-case digit for a value below sixteen. */
  function HexChar(d: int): (c: char)
    requires 0 <= d < 16
    ensures IsHexChar(c)
  {
    if d < 10 then (48 + d) as char else (87 + d) as char
  }

  function HexCharValue(c: char): int
    requires IsHexChar(c)
  {
    if c <= '9' then c as int - 48 else c as int - 87
  }

  /** The last n hexadecimal digits of x, most significant first. */
  function HexDigits(x: int, n: nat): (s: string)
    ensures |s| == n && IsHexString(s)
    decreases n
  {
    if n == 0 then [] else HexDigits(x / 16, n - 1) + [HexChar(x % 16)]
  }

  /** The number a string of hexadecimal digits denotes. */
  function HexValue(s: string): int
    requires IsHexString(s)
  {
    if s == [] then 0 else HexValue(s[..|s| - 1]) * 16 + HexCharValue(s[|s| - 1])
  }

  lemma HexCharRoundTrip(d: int)
    requires 0 <= d < 16
    ensures HexCharValue(HexChar(d)) == d
  {
  }

  /** n digits keep x modulo 16^n. */
  lemma {:induction false} HexDigitsValue(x: int, n: nat)
    ensures HexValue(HexDigits(x, n)) == x % Pow2(4 * n)
    decreases n
  {
    if n > 0 {
      var s := HexDigits(x, n);
      assert s[..|s| - 1] == HexDigits(x / 16, n - 1);
      HexDigitsValue(x / 16, n - 1);
      HexCharRoundTrip(x % 16);
      assert Pow2(4) == 16 by { Pow2Values(); }
      Pow2Add(4, 4 * (n - 1));
      assert 4 + 4 * (n - 1) == 4 * n;
      DigitSplit(x, 16, Pow2(4 * (n - 1)));
    }
  }

  /** The number of digits written: `08` in the format. */
  const Width: nat := 8

  /** Line 243 and its repeats: the low 32 bits as eight lower-case hexadecimal digits, zero-padded. */
  function Hex8(w: Word): (s: string)
    ensures |s| == 8 && IsHexString(s)
  {
    HexDigits(w, Width)
  }

  /** The eight digits denote the word exactly: nothing is lost to the padding or the width. */
  lemma Hex8RoundTrip(w: Word)
    ensures HexValue(Hex8(w)) == w
  {
    Pow2Values();
    assert 4 * Width == 32;
    HexDigitsValue(w, Width);
  }

  lemma HexCharInjective(c: char, d: char)
    requires IsHexChar(c) && IsHexChar(d) && HexCharValue(c) == HexCharValue(d)
    ensures c == d
  {
  }

  /** A value has one spelling of each length: equal-length digit strings of equal value are equal. */
  lemma {:induction false} HexValueInjective(s: string, t: string)
    requires IsHexString(s) && IsHexString(t) && |s| == |t| && HexValue(s) == HexValue(t)
    ensures s == t
    decreases |s|
  {
    if |s| > 0 {
      var n := |s| - 1;
      var v := HexValue(s);
      DivModUnique(v, 16, HexValue(s[..n]), HexCharValue(s[n]));
      DivModUnique(v, 16, HexValue(t[..n]), HexCharValue(t[n]));
      HexCharInjective(s[n], t[n]);
      HexValueInjective(s[..n], t[..n]);
      assert s == s[..n] + [s[n]] && t == t[..n] + [t[n]];
    }
  }

  /** Distinct words are written differently. */
  lemma Hex8Injective(a: Word, b: Word)
    ensures Hex8(a) == Hex8(b) ==> a == b
  {
    Hex8RoundTrip(a);
    Hex8RoundTrip(b);
  }
}
