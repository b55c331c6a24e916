/** The pieces of Python's `str` that the naming code relies on: whitespace,
    `strip`/`rstrip`, case mapping, `str(int)` for the suffix counter, and
    "the text after the last separator" (used for `os.path.basename` and to
    read a suffix counter back). Case mapping is modelled over ASCII only. */
module Text {

  /** Python's `str.isspace()`, which is the set `str.strip()` removes by default. */
  predicate IsSpace(c: char) {
    var n := c as int;
    || 9 <= n <= 13
    || 28 <= n <= 32
    || n == 0x85 || n == 0xA0 || n == 0x1680
    || 0x2000 <= n <= 0x200A
    || n == 0x2028 || n == 0x2029 || n == 0x202F || n == 0x205F || n == 0x3000
  }

  predicate IsDot(c: char) { c == '.' }

  predicate IsSpaceOrDot(c: char) { c == ' ' || c == '.' }

  predicate IsDigit(c: char) { '0' <= c <= '9' }

  /** `s.lstrip(chars)`: the longest suffix of `s` that does not start with a stripped character. */
  function LStrip(s: string, strip: char -> bool): (r: string)
    ensures |r| <= |s| && r == s[|s| - |r|..]
    ensures forall i :: 0 <= i < |s| - |r| ==> strip(s[i])
    ensures r == [] || !strip(r[0])
  {
    if s == [] || !strip(s[0]) then s
    else
      var r := LStrip(s[1..], strip);
      assert forall i :: 1 <= i < |s| - |r| ==> s[i] == s[1..][i - 1];
      r
  }

  /** `s.rstrip(chars)`: the longest prefix of `s` that does not end with a stripped character. */
  function RStrip(s: string, strip: char -> bool): (r: string)
    ensures |r| <= |s| && r == s[..|r|]
    ensures forall i :: |r| <= i < |s| ==> strip(s[i])
    ensures r == [] || !strip(r[|r| - 1])
  {
    if s == [] || !strip(s[|s| - 1]) then s
    else RStrip(s[..|s| - 1], strip)
  }

  /** `s.strip()` with no argument: surrounding whitespace removed. */
  function Strip(s: string): string {
    RStrip(LStrip(s, IsSpace), IsSpace)
  }

  /** A string that neither starts nor ends with whitespace is left alone by `strip()`. */
  lemma StripKeepsTrimmed(s: string)
    requires s != [] && !IsSpace(s[0]) && !IsSpace(s[|s| - 1])
    ensures Strip(s) == s
  {
    assert LStrip(s, IsSpace) == s;
  }

  function UpperChar(c: char): char {
    if 'a' <= c <= 'z' then (c as int - 32) as char else c
  }

  function LowerChar(c: char): char {
    if 'A' <= c <= 'Z' then (c as int + 32) as char else c
  }

  /** `s.upper()`, over ASCII letters. */
  function Upper(s: string): (r: string)
    ensures |r| == |s|
    ensures forall i :: 0 <= i < |s| ==> r[i] == UpperChar(s[i])
  {
    if s == [] then [] else [UpperChar(s[0])] + Upper(s[1..])
  }

  /** `s.lower()`, over ASCII letters. */
  function Lower(s: string): (r: string)
    ensures |r| == |s|
    ensures forall i :: 0 <= i < |s| ==> r[i] == LowerChar(s[i])
  {
    if s == [] then [] else [LowerChar(s[0])] + Lower(s[1..])
  }

  lemma LowerConcat(a: string, b: string)
    ensures Lower(a + b) == Lower(a) + Lower(b)
  {
    assert forall i :: 0 <= i < |a + b| ==> Lower(a + b)[i] == (Lower(a) + Lower(b))[i];
  }

  /** Lower-casing leaves a text without upper-case letters as it is. */
  lemma LowerKeepsNonLetters(s: string)
    requires forall i :: 0 <= i < |s| ==> !('A' <= s[i] <= 'Z')
    ensures Lower(s) == s
  {
    assert forall i :: 0 <= i < |s| ==> Lower(s)[i] == s[i];
  }

  function DigitChar(d: nat): (c: char)
    requires d < 10
    ensures IsDigit(c)
  {
    ('0' as int + d) as char
  }

  function DigitValue(c: char): nat {
    if IsDigit(c) then c as int - '0' as int else 0
  }

  /** `str(n)` for a non-negative integer: its decimal digits, most significant first. */
  function DecimalString(n: nat): (r: string)
    ensures r != []
    ensures forall i :: 0 <= i < |r| ==> IsDigit(r[i])
    decreases n
  {
    if n < 10 then [DigitChar(n)]
    else DecimalString(n / 10) + [DigitChar(n % 10)]
  }

  /** `int(s)` for a text of decimal digits; the reading back of `DecimalString`. */
  function ParseDecimal(s: string): nat
    decreases |s|
  {
    if s == [] then 0 else ParseDecimal(s[..|s| - 1]) * 10 + DigitValue(s[|s| - 1])
  }

  lemma {:induction false} ParseDecimalString(n: nat)
    ensures ParseDecimal(DecimalString(n)) == n
    decreases n
  {
    var s := DecimalString(n);
    if n < 10 {
      assert s[..|s| - 1] == [];
    } else {
      assert s[..|s| - 1] == DecimalString(n / 10);
      ParseDecimalString(n / 10);
    }
  }

  /** A larger number never has fewer digits. */
  lemma {:induction false} DecimalStringLengthMonotone(a: nat, b: nat)
    requires a <= b
    ensures |DecimalString(a)| <= |DecimalString(b)|
    decreases b
  {
    if 10 <= a {
      DecimalStringLengthMonotone(a / 10, b / 10);
    }
  }

  /** The text after the last occurrence of `sep` (all of `s` when `sep` does not occur). */
  function AfterLast(s: string, sep: char): (r: string)
    ensures |r| <= |s| && r == s[|s| - |r|..]
    ensures sep !in r
    decreases |s|
  {
    if s == [] then []
    else if s[|s| - 1] == sep then []
    else
      var init := s[..|s| - 1];
      var r := AfterLast(init, sep);
      assert init[|init| - |r|..] + [s[|s| - 1]] == s[|s| - |r| - 1..];
      r + [s[|s| - 1]]
  }

  /** When `AfterLast` stops short of the whole text, it stops right after a `sep`. */
  lemma {:induction false} AfterLastStopsAtSeparator(s: string, sep: char)
    ensures |AfterLast(s, sep)| < |s| ==> s[|s| - |AfterLast(s, sep)| - 1] == sep
    decreases |s|
  {
    if s != [] && s[|s| - 1] != sep {
      var init := s[..|s| - 1];
      AfterLastStopsAtSeparator(init, sep);
      assert |AfterLast(s, sep)| == |AfterLast(init, sep)| + 1;
    }
  }

  /** Appending text without `sep` extends what follows the last `sep`. */
  lemma {:induction false} AfterLastAppend(x: string, d: string, sep: char)
    requires sep !in d
    ensures AfterLast(x + d, sep) == AfterLast(x, sep) + d
    decreases |d|
  {
    if d != [] {
      var d' := d[..|d| - 1];
      assert (x + d)[..|x + d| - 1] == x + d';
      assert (x + d)[|x + d| - 1] == d[|d| - 1] != sep;
      assert AfterLast(x + d, sep) == AfterLast(x + d', sep) + [d[|d| - 1]];
      AfterLastAppend(x, d', sep);
      assert d == d' + [d[|d| - 1]];
    } else {
      assert x + d == x;
    }
  }
}
