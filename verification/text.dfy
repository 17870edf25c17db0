/**
 String primitives of the .NET base library that the journal and the filter
 combo boxes rely on: `char.IsWhiteSpace`, `string.IsNullOrWhiteSpace`,
 `string.Trim`, ordinal case-insensitive equality and ordering,
 `LastIndexOf(..., StringComparison.Ordinal)` and decimal formatting of counts.
 Strings are sequences of Unicode scalar values.
 */
module Text {
  import opened Wrappers

  /** `char.IsWhiteSpace`: U+0009..U+000D, U+0020, U+0085, U+00A0 and the
      Unicode space, line and paragraph separators. */
  predicate IsWhiteSpace(c: char) {
    || c == ' '
    || ('\t' <= c <= '\r')
    || c == '\U{0085}'
    || c == '\U{00A0}'
    || c == '\U{1680}'
    || ('\U{2000}' <= c <= '\U{200A}')
    || c == '\U{2028}'
    || c == '\U{2029}'
    || c == '\U{202F}'
    || c == '\U{205F}'
    || c == '\U{3000}'
  }

  /** Every character is white space (true of the empty string). */
  predicate IsBlank(s: string) {
    forall i :: 0 <= i < |s| ==> IsWhiteSpace(s[i])
  }

  /** `string.IsNullOrWhiteSpace`. */
  predicate IsNullOrWhiteSpace(s: Option<string>) {
    s.None? || IsBlank(s.value)
  }

  /** Length of the white-space run at the start of `s`. */
  function LeadingWhiteSpace(s: string): (n: nat)
    ensures n <= |s|
    ensures forall i :: 0 <= i < n ==> IsWhiteSpace(s[i])
    ensures n < |s| ==> !IsWhiteSpace(s[n])
    decreases |s|
  {
    if |s| == 0 || !IsWhiteSpace(s[0]) then 0 else 1 + LeadingWhiteSpace(s[1..])
  }

  /** Length of the white-space run at the end of `s`. */
  function TrailingWhiteSpace(s: string): (n: nat)
    ensures n <= |s|
    ensures forall i :: |s| - n <= i < |s| ==> IsWhiteSpace(s[i])
    ensures n < |s| ==> !IsWhiteSpace(s[|s| - n - 1])
    decreases |s|
  {
    if |s| == 0 || !IsWhiteSpace(s[|s| - 1]) then 0 else 1 + TrailingWhiteSpace(s[..|s| - 1])
  }

  /** `string.Trim()`: removes leading and trailing white space. The result
      is what lies between a white-space prefix and a white-space suffix of
      `s`, and it neither starts nor ends with white space. */
  function Trim(s: string): (r: string)
    ensures |r| == 0 <==> IsBlank(s)
    ensures |r| > 0 ==> !IsWhiteSpace(r[0]) && !IsWhiteSpace(r[|r| - 1])
    ensures |r| > 0 ==> exists a :: 0 <= a <= |s| - |r| && OccursAt(s, r, a) && IsBlank(s[..a]) && IsBlank(s[a + |r|..])
    ensures |s| > 0 && !IsWhiteSpace(s[0]) && !IsWhiteSpace(s[|s| - 1]) ==> r == s
  {
    var a := LeadingWhiteSpace(s);
    if a == |s| then []
    else
      var b := |s| - TrailingWhiteSpace(s);
      assert a < b;
      assert OccursAt(s, s[a..b], a);
      assert IsBlank(s[..a]) && IsBlank(s[b..]);
      s[a..b]
  }

  /** ASCII upper-casing, the case folding of `StringComparison.OrdinalIgnoreCase`
      restricted to ASCII letters. */
  function ToUpperAscii(c: char): char {
    if 'a' <= c <= 'z' then (c as int - 32) as char else c
  }

  function ToUpper(s: string): (u: string)
    ensures |u| == |s|
    ensures forall i :: 0 <= i < |s| ==> u[i] == ToUpperAscii(s[i])
  {
    seq(|s|, i requires 0 <= i < |s| => ToUpperAscii(s[i]))
  }

  /** `string.Equals(a, b, StringComparison.OrdinalIgnoreCase)`. */
  predicate EqualsIgnoreCase(a: string, b: string) {
    ToUpper(a) == ToUpper(b)
  }

  /** Ordinal (code point by code point) strict order; a proper prefix comes first. */
  predicate OrdinalLess(a: string, b: string)
    decreases |a|
  {
    |b| > 0 && (|a| == 0 || a[0] < b[0] || (a[0] == b[0] && OrdinalLess(a[1..], b[1..])))
  }

  lemma {:induction false} OrdinalLessIrreflexive(a: string)
    ensures !OrdinalLess(a, a)
    decreases |a|
  {
    if |a| > 0 {
      OrdinalLessIrreflexive(a[1..]);
    }
  }

  lemma {:induction false} OrdinalLessTransitive(a: string, b: string, c: string)
    requires OrdinalLess(a, b) && OrdinalLess(b, c)
    ensures OrdinalLess(a, c)
    decreases |a|
  {
    if |a| > 0 && a[0] == b[0] && b[0] == c[0] {
      OrdinalLessTransitive(a[1..], b[1..], c[1..]);
    }
  }

  lemma {:induction false} OrdinalLessTrichotomy(a: string, b: string)
    ensures a == b || OrdinalLess(a, b) || OrdinalLess(b, a)
    decreases |a|
  {
    if |a| > 0 && |b| > 0 && a[0] == b[0] {
      OrdinalLessTrichotomy(a[1..], b[1..]);
      if a[1..] == b[1..] {
        assert a == [a[0]] + a[1..] && b == [b[0]] + b[1..];
      }
    }
  }

  /** `StringComparer.OrdinalIgnoreCase.Compare(a, b) < 0`. */
  predicate LessIgnoreCase(a: string, b: string) {
    OrdinalLess(ToUpper(a), ToUpper(b))
  }

  /** `s` holds `pat` starting at index `j`. */
  predicate OccursAt(s: string, pat: string, j: int) {
    0 <= j && j + |pat| <= |s| && s[j..j + |pat|] == pat
  }

  /** `s.LastIndexOf(pat, StringComparison.Ordinal)` for a non-empty pattern:
      the start of the last occurrence, or -1. */
  function LastIndexOf(s: string, pat: string): (r: int)
    requires |pat| > 0
    ensures -1 <= r
    ensures r >= 0 ==> OccursAt(s, pat, r)
    ensures forall j :: r < j ==> !OccursAt(s, pat, j)
    decreases |s|
  {
    if |s| < |pat| then -1
    else if s[|s| - |pat|..] == pat then |s| - |pat|
    else
      var r := LastIndexOf(s[..|s| - 1], pat);
      assert forall j :: r < j ==> !OccursAt(s, pat, j) by {
        forall j | r < j && OccursAt(s, pat, j)
          ensures false
        {
          if j + |pat| <= |s| - 1 {
            assert s[..|s| - 1][j..j + |pat|] == s[j..j + |pat|];
            assert OccursAt(s[..|s| - 1], pat, j);
          }
        }
      }
      r
  }

  function DigitChar(d: nat): (c: char)
    requires d < 10
  {
    ('0' as int + d) as char
  }

  predicate IsDigit(c: char) {
    '0' <= c <= '9'
  }

  /** The value of a string of decimal digits. */
  function DecimalValue(s: string): nat
    requires forall i :: 0 <= i < |s| ==> IsDigit(s[i])
  {
    if |s| == 0 then 0
    else
      assert IsDigit(s[|s| - 1]);
      10 * DecimalValue(s[..|s| - 1]) + (s[|s| - 1] as int - '0' as int)
  }

  /** `digits` is a decimal numeral whose value is `n`. */
  predicate ReadsAs(digits: string, n: nat) {
    && (forall i :: 0 <= i < |digits| ==> IsDigit(digits[i]))
    && DecimalValue(digits) == n
    && (|digits| > 1 ==> digits[0] != '0')
  }

  /** `n.ToString()` for a non-negative count: its decimal digits, without
      leading zeros. */
  function NatToString(n: nat): (s: string)
    ensures |s| > 0
    ensures forall i :: 0 <= i < |s| ==> IsDigit(s[i])
    ensures DecimalValue(s) == n
    ensures |s| > 1 ==> s[0] != '0'
  {
    if n < 10 then [DigitChar(n)]
    else
      var s := NatToString(n / 10) + [DigitChar(n % 10)];
      assert s[..|s| - 1] == NatToString(n / 10);
      s
  }
}
