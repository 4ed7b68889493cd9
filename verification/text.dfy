/** String primitives the services rely on: the two platforms' notions of
    white space, .NET `string.Trim`, ASCII upper-casing, the byte-wise string
    order the store uses to break ties, and the decimal text form in which
    integers travel through the store. */
module Text {
  import opened Wrappers

  // ---------------------------------------------------------------------
  // White space

  /** `char.IsWhiteSpace` of .NET: the Unicode separators (categories Zs, Zl,
      Zp) plus the controls U+0009..U+000D and U+0085. */
  predicate IsDotnetWhiteSpace(c: char) {
    var n := c as int;
    || 0x09 <= n <= 0x0D
    || n == 0x20 || n == 0x85 || n == 0xA0 || n == 0x1680
    || 0x2000 <= n <= 0x200A
    || n == 0x2028 || n == 0x2029 || n == 0x202F || n == 0x205F || n == 0x3000
  }

  /** `Character.isWhitespace` of Java: the Unicode separators except the
      no-break spaces U+00A0, U+2007 and U+202F, plus U+0009..U+000D and
      U+001C..U+001F. */
  predicate IsJavaWhitespace(c: char) {
    var n := c as int;
    || 0x09 <= n <= 0x0D
    || 0x1C <= n <= 0x20
    || n == 0x1680
    || 0x2000 <= n <= 0x2006
    || 0x2008 <= n <= 0x200A
    || n == 0x2028 || n == 0x2029 || n == 0x205F || n == 0x3000
  }

  /** True of the empty string and of strings made only of .NET white space. */
  predicate IsWhiteSpaceOnly(s: string) {
    forall i :: 0 <= i < |s| ==> IsDotnetWhiteSpace(s[i])
  }

  /** `string.IsNullOrWhiteSpace` of .NET; `None` is the null reference. */
  predicate IsNullOrWhiteSpace(s: Option<string>) {
    s.None? || IsWhiteSpaceOnly(s.value)
  }

  /** `String.isBlank` of Java. */
  predicate IsBlank(s: string) {
    forall i :: 0 <= i < |s| ==> IsJavaWhitespace(s[i])
  }

  // ---------------------------------------------------------------------
  // .NET string.Trim

  /** Number of white-space characters at the start of `s`. */
  function LeadingWhiteSpace(s: string): (k: nat)
    ensures k <= |s|
    ensures forall i :: 0 <= i < k ==> IsDotnetWhiteSpace(s[i])
    ensures k < |s| ==> !IsDotnetWhiteSpace(s[k])
  {
    if |s| == 0 || !IsDotnetWhiteSpace(s[0]) then 0
    else 1 + LeadingWhiteSpace(s[1..])
  }

  /** Number of white-space characters at the end of `s`. */
  function TrailingWhiteSpace(s: string): (k: nat)
    ensures k <= |s|
    ensures forall i :: |s| - k <= i < |s| ==> IsDotnetWhiteSpace(s[i])
    ensures k < |s| ==> !IsDotnetWhiteSpace(s[|s| - 1 - k])
  {
    if |s| == 0 || !IsDotnetWhiteSpace(s[|s| - 1]) then 0
    else 1 + TrailingWhiteSpace(s[..|s| - 1])
  }

  /** `string.Trim()`: `s` without its leading and trailing white space. The
      result is the slice of `s` that starts at the first non-white-space
      character; it is empty exactly when `s` is white space only, and
      otherwise neither starts nor ends with white space. */
  function Trim(s: string): (r: string)
    ensures LeadingWhiteSpace(s) + |r| <= |s|
    ensures r == s[LeadingWhiteSpace(s) .. LeadingWhiteSpace(s) + |r|]
    ensures IsWhiteSpaceOnly(s[..LeadingWhiteSpace(s)])
    ensures IsWhiteSpaceOnly(s[LeadingWhiteSpace(s) + |r|..])
    ensures |r| == 0 <==> IsWhiteSpaceOnly(s)
    ensures |r| > 0 ==> !IsDotnetWhiteSpace(r[0]) && !IsDotnetWhiteSpace(r[|r| - 1])
  {
    var a := LeadingWhiteSpace(s);
    if a == |s| then
      assert IsWhiteSpaceOnly(s);
      ""
    else
      var t := TrailingWhiteSpace(s);
      assert |s| - t > a by { assert !IsDotnetWhiteSpace(s[a]); }
      assert !IsWhiteSpaceOnly(s) by { assert !IsDotnetWhiteSpace(s[a]); }
      s[a .. |s| - t]
  }

  /** Trimming twice is trimming once. */
  lemma TrimIdempotent(s: string)
    ensures Trim(Trim(s)) == Trim(s)
  {
    var r := Trim(s);
    if |r| > 0 {
      assert LeadingWhiteSpace(r) == 0;
    }
  }

  // ---------------------------------------------------------------------
  // ASCII upper case

  function UpperChar(c: char): char {
    if 'a' <= c <= 'z' then (c as int - 32) as char else c
  }

  /** `toUpperCase()` restricted to ASCII letters. */
  function ToUpperAscii(s: string): (r: string)
    ensures |r| == |s|
    ensures forall i :: 0 <= i < |s| ==> r[i] == UpperChar(s[i])
  {
    seq(|s|, i requires 0 <= i < |s| => UpperChar(s[i]))
  }

  /** Two strings equal up to the case of ASCII letters. */
  predicate EqualsIgnoreAsciiCase(a: string, b: string) {
    |a| == |b| && forall i :: 0 <= i < |a| ==> UpperChar(a[i]) == UpperChar(b[i])
  }

  /** A string without lower-case ASCII letters is its own upper case. */
  predicate NoLowerAscii(s: string) {
    forall i :: 0 <= i < |s| ==> !('a' <= s[i] <= 'z')
  }

  /** Upper-casing then comparing with an upper-case constant is a
      case-insensitive comparison, in both directions. */
  lemma UpperMatchesIgnoringCase(s: string, k: string)
    requires NoLowerAscii(k)
    ensures ToUpperAscii(s) == k <==> EqualsIgnoreAsciiCase(s, k)
  {
    if EqualsIgnoreAsciiCase(s, k) {
      forall i | 0 <= i < |s| ensures ToUpperAscii(s)[i] == k[i] {
        assert UpperChar(k[i]) == k[i];
      }
    }
  }

  // ---------------------------------------------------------------------
  // Byte-wise (code point) string order, as the store orders equal scores

  /** Strict lexicographic order on code points; for valid Unicode this is
      the order of the UTF-8 byte strings the store compares. */
  predicate StrLess(a: string, b: string)
    decreases |a|
  {
    |b| > 0 && (|a| == 0 || a[0] < b[0] || (a[0] == b[0] && StrLess(a[1..], b[1..])))
  }

  lemma {:induction false} StrLessIrreflexive(a: string)
    ensures !StrLess(a, a)
    decreases |a|
  {
    if |a| > 0 {
      StrLessIrreflexive(a[1..]);
    }
  }

  lemma {:induction false} StrLessTransitive(a: string, b: string, c: string)
    requires StrLess(a, b) && StrLess(b, c)
    ensures StrLess(a, c)
    decreases |a|
  {
    if |a| > 0 && a[0] == b[0] && b[0] == c[0] {
      StrLessTransitive(a[1..], b[1..], c[1..]);
    }
  }

  lemma {:induction false} StrLessTotal(a: string, b: string)
    requires a != b
    ensures StrLess(a, b) || StrLess(b, a)
    decreases |a|
  {
    if |a| > 0 && |b| > 0 && a[0] == b[0] {
      StrLessTotal(a[1..], b[1..]);
    }
  }

  lemma {:induction false} StrLessAsymmetric(a: string, b: string)
    requires StrLess(a, b)
    ensures !StrLess(b, a)
  {
    if StrLess(b, a) {
      StrLessTransitive(a, b, a);
      StrLessIrreflexive(a);
    }
  }

  // ---------------------------------------------------------------------
  // Decimal text form of integers

  /** Smallest and largest value of a 64-bit signed integer (`long`). */
  const MinLong: int := -0x8000_0000_0000_0000
  const MaxLong: int := 0x7FFF_FFFF_FFFF_FFFF

  predicate InLongRange(n: int) {
    MinLong <= n <= MaxLong
  }

  predicate IsAsciiDigit(c: char) {
    '0' <= c <= '9'
  }

  function DigitChar(d: nat): (c: char)
    requires d < 10
    ensures IsAsciiDigit(c) && c as int - '0' as int == d
  {
    ('0' as int + d) as char
  }

  /** Decimal digits of `n`, most significant first, without leading zeros. */
  function NatToString(n: nat): (s: string)
    ensures |s| > 0
    ensures forall i :: 0 <= i < |s| ==> IsAsciiDigit(s[i])
    decreases n
  {
    if n < 10 then [DigitChar(n)] else NatToString(n / 10) + [DigitChar(n % 10)]
  }

  /** The invariant culture's text of an integer: an optional '-' and digits. */
  function IntToString(n: int): string {
    if n < 0 then "-" + NatToString(-n) else NatToString(n)
  }

  function DigitValue(c: char): nat
    requires IsAsciiDigit(c)
  {
    c as int - '0' as int
  }

  /** Value of a string of ASCII digits. */
  function DigitsValue(s: string): nat
    requires forall i :: 0 <= i < |s| ==> IsAsciiDigit(s[i])
  {
    if |s| == 0 then 0
    else 10 * DigitsValue(s[..|s| - 1]) + DigitValue(s[|s| - 1])
  }

  /** Reading back the digits of a natural number gives the number. */
  lemma {:induction false} DigitsValueOfNatToString(n: nat)
    ensures DigitsValue(NatToString(n)) == n
    decreases n
  {
    var s := NatToString(n);
    if n >= 10 {
      DigitsValueOfNatToString(n / 10);
      assert s[..|s| - 1] == NatToString(n / 10);
    }
  }

  /** `Long.parseLong` on ASCII text: an optional '+' or '-', then at least one
      digit; the value must fit in a `long`, otherwise the text is rejected
      (`Long.parseLong`'s NumberFormatException). */
  function ParseLong(s: string): (r: Option<int>)
    ensures r.Some? ==> InLongRange(r.value)
  {
    var neg := |s| > 0 && s[0] == '-';
    var start := if |s| > 0 && (s[0] == '-' || s[0] == '+') then 1 else 0;
    var digits := s[start..];
    if |digits| == 0 || !AllDigits(digits) then None
    else
      var v: int := if neg then -(DigitsValue(digits) as int) else DigitsValue(digits);
      if InLongRange(v) then Some(v) else None
  }

  predicate AllDigits(d: string) {
    forall i :: 0 <= i < |d| ==> IsAsciiDigit(d[i])
  }

  predicate IsSign(sign: string) {
    sign == "" || sign == "+" || sign == "-"
  }

  /** The number a sign and a run of digits denote. */
  function SignedValue(sign: string, d: string): int
    requires AllDigits(d)
  {
    if sign == "-" then -(DigitsValue(d) as int) else DigitsValue(d)
  }

  /** A sign and at least one digit parse to their value exactly when it
      fits in a `long`. */
  lemma ParseLongOfSignedDigits(sign: string, d: string)
    requires IsSign(sign) && |d| > 0 && AllDigits(d)
    ensures ParseLong(sign + d) ==
      (if InLongRange(SignedValue(sign, d)) then Some(SignedValue(sign, d)) else None)
  {
    var s := sign + d;
    if sign == "" {
      assert s == d && IsAsciiDigit(s[0]);
      assert s[0..] == d;
    } else {
      assert s[0] == sign[0] && s[1..] == d;
    }
  }

  /** Nothing else parses: accepted text is a sign followed by digits. */
  lemma ParseLongAcceptsOnlySignedDigits(s: string) returns (sign: string, d: string)
    requires ParseLong(s).Some?
    ensures IsSign(sign) && |d| > 0 && AllDigits(d) && s == sign + d
    ensures ParseLong(s) == Some(SignedValue(sign, d))
  {
    if s[0] == '-' || s[0] == '+' {
      sign, d := s[..1], s[1..];
      assert s == sign + d;
    } else {
      sign, d := "", s;
      assert s[0..] == s;
    }
  }

  /** Every `long` survives the trip through its decimal text. */
  lemma ParseLongOfIntToString(n: int)
    requires InLongRange(n)
    ensures ParseLong(IntToString(n)) == Some(n)
  {
    DigitsValueOfNatToString(if n < 0 then -n else n);
    var s := IntToString(n);
    if n < 0 {
      assert s[1..] == NatToString(-n);
    } else {
      assert IsAsciiDigit(s[0]);
      assert s[0..] == s;
    }
  }

}
