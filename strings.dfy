/**
 * The string operations the upload code relies on: ASCII lower-casing
 * (`strtolower`), the file-name sanitiser (`preg_replace('/[^A-Z0-9._-]/i', '_', ...)`),
 * `basename`, the extension part of `pathinfo`, PHP's `empty` on a string,
 * the integer cast of a numeric prefix and the decimal rendering of a timestamp.
 */
module Strings {

  predicate IsUpper(c: char) { 'A' <= c <= 'Z' }

  function LowerChar(c: char): char {
    if IsUpper(c) then (c as int + 32) as char else c
  }

  /** ASCII lower-casing, character by character. */
  function Lower(s: string): (r: string)
    ensures |r| == |s|
    ensures forall i :: 0 <= i < |s| ==> r[i] == LowerChar(s[i])
  {
    seq(|s|, i requires 0 <= i < |s| => LowerChar(s[i]))
  }

  /** A lower-cased string holds no upper-case letter. */
  lemma LowerHasNoUpper(s: string)
    ensures forall i :: 0 <= i < |s| ==> !IsUpper(Lower(s)[i])
  {
  }

  /** Lower-casing neither adds nor removes a directory separator. */
  lemma LowerKeepsSeparatorFree(s: string)
    requires '/' !in s
    ensures '/' !in Lower(s)
  {
    forall i | 0 <= i < |s| ensures Lower(s)[i] != '/' {
      assert s[i] != '/';
    }
  }

  /** The characters the sanitiser keeps: `[A-Za-z0-9._-]`. */
  predicate IsSafeChar(c: char) {
    ('A' <= c <= 'Z') || ('a' <= c <= 'z') || ('0' <= c <= '9') || c == '.' || c == '_' || c == '-'
  }

  predicate AllSafe(s: string) {
    forall i :: 0 <= i < |s| ==> IsSafeChar(s[i])
  }

  /** Replaces every character outside `[A-Za-z0-9._-]` by `_`. */
  function Sanitize(s: string): (r: string)
    ensures |r| == |s|
    ensures forall i :: 0 <= i < |s| ==> r[i] == (if IsSafeChar(s[i]) then s[i] else '_')
    ensures AllSafe(r)
  {
    if s == [] then [] else [if IsSafeChar(s[0]) then s[0] else '_'] + Sanitize(s[1..])
  }

  /** A name made only of safe characters comes through the sanitiser untouched. */
  lemma SanitizeKeepsSafe(s: string)
    requires AllSafe(s)
    ensures Sanitize(s) == s
  {
  }

  /** Sanitising twice is sanitising once. */
  lemma SanitizeIdempotent(s: string)
    ensures Sanitize(Sanitize(s)) == Sanitize(s)
  {
    SanitizeKeepsSafe(Sanitize(s));
  }

  /** Position of the last `c` in `s`, or -1 when there is none. */
  function LastIndexOf(s: string, c: char): (k: int)
    ensures -1 <= k < |s|
    ensures k >= 0 ==> s[k] == c
    ensures forall j :: k < j < |s| ==> s[j] != c
  {
    if s == [] then -1
    else if s[|s| - 1] == c then |s| - 1
    else LastIndexOf(s[..|s| - 1], c)
  }

  /** The text after the last `/` (the whole string when it has none). */
  function BaseName(s: string): (r: string)
    ensures '/' !in r
    ensures |r| <= |s| && r == s[|s| - |r|..]
    ensures '/' !in s ==> r == s
    // the result starts right after the last separator
    ensures |r| == |s| - 1 - LastIndexOf(s, '/')
  {
    s[LastIndexOf(s, '/') + 1..]
  }

  /** The text after the last `.`, and "" when there is no `.` (pathinfo leaves the
      extension out and the undefined value lower-cases to ""). */
  function ExtensionOf(s: string): (r: string)
    ensures '.' !in r
    ensures |r| <= |s| && r == s[|s| - |r|..]
    ensures '.' !in s ==> r == ""
    // otherwise it starts right after the last dot
    ensures '.' in s ==> |r| == |s| - 1 - LastIndexOf(s, '.')
  {
    var k := LastIndexOf(s, '.');
    if k < 0 then ""
    else s[k + 1..]
  }

  /** A suffix of a string without `c` has no `c` either. */
  lemma SuffixLacks(s: string, n: nat, c: char)
    requires n <= |s| && c !in s
    ensures c !in s[|s| - n..]
  {
  }

  /** The extension of a base name contains neither `.` nor `/`. */
  lemma ExtensionOfBaseNameIsPlain(name: string)
    ensures '.' !in ExtensionOf(BaseName(name)) && '/' !in ExtensionOf(BaseName(name))
  {
    var b := BaseName(name);
    SuffixLacks(b, |ExtensionOf(b)|, '/');
  }

  /** PHP's `empty` (and `!`) on a string: "" and "0" are both empty. */
  predicate Falsy(s: string)
    ensures Falsy(s) ==> |s| <= 1
    ensures |s| == 1 ==> (Falsy(s) <==> s[0] == '0')
  {
    s == "" || s == "0"
  }

  predicate IsDigit(c: char) { '0' <= c <= '9' }

  predicate AllDigits(s: string) { forall i :: 0 <= i < |s| ==> IsDigit(s[i]) }

  function DigitValue(c: char): nat
    requires IsDigit(c)
  {
    c as int - '0' as int
  }

  function DigitChar(d: nat): (c: char)
    requires d < 10
    ensures IsDigit(c) && DigitValue(c) == d
  {
    ('0' as int + d) as char
  }

  /** The longest prefix of `s` made of decimal digits. */
  function LeadingDigits(s: string): (r: string)
    ensures |r| <= |s| && r == s[..|r|]
    ensures AllDigits(r)
    ensures |r| < |s| ==> !IsDigit(s[|r|])
  {
    if s == [] || !IsDigit(s[0]) then [] else [s[0]] + LeadingDigits(s[1..])
  }

  /** The number a string of decimal digits denotes. */
  function DecimalValue(d: string): nat
    requires AllDigits(d)
  {
    if d == [] then 0 else DecimalValue(d[..|d| - 1]) * 10 + DigitValue(d[|d| - 1])
  }

  /** The integer cast of a string, restricted to its leading decimal digits
      (no leading blanks, no sign); 0 when the string does not start with a digit. */
  function LeadingNumber(s: string): (n: nat)
    ensures (s == [] || !IsDigit(s[0])) ==> n == 0
    ensures AllDigits(s) ==> n == DecimalValue(s)
  {
    var d := LeadingDigits(s);
    assert AllDigits(s) ==> d == s by {
      if AllDigits(s) {
        LeadingDigitsOfConcat(s, []);
        assert s + [] == s;
      }
    }
    DecimalValue(d)
  }

  /** Decimal rendering of a natural number, without leading zeros. */
  function DecimalString(n: nat): (r: string)
    ensures 1 <= |r| && AllDigits(r)
    ensures n >= 10 ==> r[0] != '0'
  {
    if n < 10 then [DigitChar(n)] else DecimalString(n / 10) + [DigitChar(n % 10)]
  }

  /** Reading back a rendered number gives the number. */
  lemma {:induction false} DecimalRoundTrip(n: nat)
    ensures DecimalValue(DecimalString(n)) == n
  {
    if n >= 10 {
      DecimalRoundTrip(n / 10);
      var d := DecimalString(n);
      assert d[..|d| - 1] == DecimalString(n / 10);
    }
  }

  /** The digits of `d` followed by a non-digit are exactly the leading digits. */
  lemma {:induction false} LeadingDigitsOfConcat(d: string, t: string)
    requires AllDigits(d)
    requires t == [] || !IsDigit(t[0])
    ensures LeadingDigits(d + t) == d
  {
    if d != [] {
      LeadingDigitsOfConcat(d[1..], t);
      assert (d + t)[1..] == d[1..] + t;
    }
  }

  /** The integer cast reads back a rendered number followed by any non-digit text. */
  lemma LeadingNumberOfRendered(n: nat, t: string)
    requires t == [] || !IsDigit(t[0])
    ensures LeadingNumber(DecimalString(n) + t) == n
  {
    LeadingDigitsOfConcat(DecimalString(n), t);
    DecimalRoundTrip(n);
  }
}
