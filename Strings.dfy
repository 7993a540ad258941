/** The string operations of JavaScript that the core relies on. */
module Strings {

  /** The characters String.prototype.trim removes: WhiteSpace and LineTerminator of ECMAScript. */
  predicate IsWs(c: char) {
    c == '\t' || c == '\n' || c == '\U{000B}' || c == '\U{000C}' || c == '\r' || c == ' ' ||
    c == '\U{00A0}' || c == '\U{1680}' || ('\U{2000}' <= c <= '\U{200A}') ||
    c == '\U{2028}' || c == '\U{2029}' || c == '\U{202F}' || c == '\U{205F}' ||
    c == '\U{3000}' || c == '\U{FEFF}'
  }

  predicate IsSpace(c: char) {
    c == ' '
  }

  /**
   * `s[i..j]` is `s` with a maximal run of `strip` characters removed at each end:
   * everything outside the slice is stripped, and a non-empty slice starts and
   * ends with a character that is kept.
   */
  ghost predicate StrippedAt(s: string, i: int, j: int, strip: char -> bool) {
    0 <= i <= j <= |s| &&
    (forall k :: 0 <= k < i ==> strip(s[k])) &&
    (forall k :: j <= k < |s| ==> strip(s[k])) &&
    (i < j ==> !strip(s[i]) && !strip(s[j - 1]))
  }

  /** Removing maximal runs at both ends can only give one result. */
  lemma StrippedUnique(s: string, i: int, j: int, i': int, j': int, strip: char -> bool)
    requires StrippedAt(s, i, j, strip) && StrippedAt(s, i', j', strip)
    ensures s[i..j] == s[i'..j']
  {
    if i < j && i' < j' {
      assert i == i' && j == j';
    }
  }

  /** The end of the run of `strip` characters that starts at `i`. */
  function LeadingRun(s: string, strip: char -> bool, i: nat): (j: nat)
    requires i <= |s|
    ensures i <= j <= |s|
    ensures forall k :: i <= k < j ==> strip(s[k])
    ensures j < |s| ==> !strip(s[j])
    decreases |s| - i
  {
    if i < |s| && strip(s[i]) then LeadingRun(s, strip, i + 1) else i
  }

  /** The start of the run of `strip` characters that ends at `j`, going no lower than `lo`. */
  function TrailingRun(s: string, strip: char -> bool, lo: nat, j: nat): (e: nat)
    requires lo <= j <= |s|
    ensures lo <= e <= j
    ensures forall k :: e <= k < j ==> strip(s[k])
    ensures e > lo ==> !strip(s[e - 1])
    decreases j
  {
    if j > lo && strip(s[j - 1]) then TrailingRun(s, strip, lo, j - 1) else j
  }

  /** Where the trimmed text starts. */
  function TrimStart(s: string, strip: char -> bool): (a: nat)
    ensures a <= |s|
  {
    LeadingRun(s, strip, 0)
  }

  /** Where the trimmed text ends. */
  function TrimEnd(s: string, strip: char -> bool): (e: nat)
    ensures TrimStart(s, strip) <= e <= |s|
  {
    TrailingRun(s, strip, TrimStart(s, strip), |s|)
  }

  /** `s` without its leading and trailing runs of `strip` characters. */
  function TrimBy(s: string, strip: char -> bool): string {
    s[TrimStart(s, strip)..TrimEnd(s, strip)]
  }

  /** String.prototype.trim. */
  function Trim(s: string): string {
    TrimBy(s, IsWs)
  }

  /** Trimming removes a maximal run of `strip` characters at each end. */
  lemma TrimIsStripped(s: string, strip: char -> bool)
    ensures StrippedAt(s, TrimStart(s, strip), TrimEnd(s, strip), strip)
  {
    var a, e := TrimStart(s, strip), TrimEnd(s, strip);
    assert forall k :: 0 <= k < a ==> strip(s[k]);
    assert forall k :: e <= k < |s| ==> strip(s[k]);
    assert a < e ==> !strip(s[a]);
  }

  /** Any other way of removing maximal runs at both ends gives the trimmed text. */
  lemma TrimByIsStripped(s: string, strip: char -> bool, i: int, j: int)
    requires StrippedAt(s, i, j, strip)
    ensures TrimBy(s, strip) == s[i..j]
  {
    TrimIsStripped(s, strip);
    StrippedUnique(s, TrimStart(s, strip), TrimEnd(s, strip), i, j, strip);
  }

  /** A string with nothing to strip at its ends is left unchanged. */
  lemma TrimByClean(s: string, strip: char -> bool)
    requires s == [] || (!strip(s[0]) && !strip(s[|s| - 1]))
    ensures TrimBy(s, strip) == s
  {
    assert TrimStart(s, strip) == 0;
    assert TrimEnd(s, strip) == |s|;
  }

  /** Trimming is idempotent. */
  lemma TrimByIdempotent(s: string, strip: char -> bool)
    ensures TrimBy(TrimBy(s, strip), strip) == TrimBy(s, strip)
  {
    var a, e := TrimStart(s, strip), TrimEnd(s, strip);
    var r := TrimBy(s, strip);
    if r != [] {
      assert r[0] == s[a] && r[|r| - 1] == s[e - 1];
    }
    TrimByClean(r, strip);
  }

  /** A title is rejected as blank exactly when every character is whitespace. */
  lemma TrimEmptyIff(s: string)
    ensures Trim(s) == [] <==> forall k :: 0 <= k < |s| ==> IsWs(s[k])
  {
    var a := TrimStart(s, IsWs);
    if Trim(s) == [] {
      assert TrimEnd(s, IsWs) == a;
    } else {
      assert !IsWs(s[a]);
    }
  }

  /** Stripping only spaces can leave other whitespace that trim would remove. */
  lemma SpacesAreNotAllWhitespace()
    ensures TrimBy("\t", IsSpace) == "\t" && Trim("\t") == ""
  {
    TrimByClean("\t", IsSpace);
    TrimEmptyIff("\t");
  }

  predicate IsDigit(c: char) {
    '0' <= c <= '9'
  }

  function DigitChar(d: nat): (c: char)
    requires d < 10
    ensures IsDigit(c) && c as int - '0' as int == d
  {
    ('0' as int + d) as char
  }

  /** The decimal numeral of a natural number, as JavaScript writes an integer below 10^21. */
  function NatToDecimal(n: nat): (r: string)
    ensures r != [] && forall k :: 0 <= k < |r| ==> IsDigit(r[k])
  {
    if n < 10 then [DigitChar(n)] else NatToDecimal(n / 10) + [DigitChar(n % 10)]
  }

  function IntToDecimal(i: int): string {
    if i < 0 then "-" + NatToDecimal(-i) else NatToDecimal(i)
  }

  function DigitValue(c: char): nat
    requires IsDigit(c)
  {
    c as int - '0' as int
  }

  /** The value of a string of decimal digits. */
  function ParseDecimal(s: string): nat
    requires forall k :: 0 <= k < |s| ==> IsDigit(s[k])
  {
    if s == [] then 0 else ParseDecimal(s[..|s| - 1]) * 10 + DigitValue(s[|s| - 1])
  }

  /** Reading back a numeral gives the number it was made from. */
  lemma {:induction false} DecimalRoundTrip(n: nat)
    ensures ParseDecimal(NatToDecimal(n)) == n
  {
    if n >= 10 {
      var r := NatToDecimal(n);
      assert r[..|r| - 1] == NatToDecimal(n / 10);
      DecimalRoundTrip(n / 10);
    }
  }
}
