/**
 * The size policy of a `File` entity: the raw max-size value, its lazy
 * resolution from the runtime default, the unit parser and the comparison
 * `sizeIsOk` makes against the parsed limit.
 */
module SizePolicy {
  import opened Outcomes
  import opened Strings

  /** What `setMaxSize` may have stored: nothing yet (null), an integer byte
      count, a unit string, or some other PHP value (float, array, ...). */
  datatype RawSize = Unset | IntSize(n: int) | StrSize(s: string) | OtherSize

  /** What parsing a raw size gives: a byte count, the "neither int nor string"
      exception, or the null that an unrecognised unit string falls through to. */
  datatype SizeResult = Bytes(n: int) | TypeFailure | FormatFailure

  /** `substr($s, strlen($s) - n)`: the last `n` characters. When `n` exceeds the
      length the offset is negative and counts back from the end once more, so
      the result is shorter than `n` (the whole string once the offset passes
      the start). */
  function Tail(s: string, n: nat): (r: string)
    ensures |r| == if n <= |s| then n else if n <= 2 * |s| then n - |s| else |s|
    ensures r == s[|s| - |r|..]
    ensures n > |s| ==> |r| < n
  {
    var offset := |s| - n;
    if offset >= 0 then s[offset..]
    else if -offset <= |s| then s[|s| + offset..]
    else s
  }

  /** `s` ends in `suffix`, ignoring ASCII case. */
  predicate EndsWithCI(s: string, suffix: string) {
    |suffix| <= |s| && forall i :: 0 <= i < |suffix| ==> LowerChar(s[|s| - |suffix| + i]) == suffix[i]
  }

  /** Comparing the lower-cased tail with a non-empty suffix is a case-blind suffix test. */
  lemma TailMatch(s: string, t: string)
    requires |t| >= 1
    ensures Lower(Tail(s, |t|)) == t <==> EndsWithCI(s, t)
  {
    if EndsWithCI(s, t) {
      assert Lower(Tail(s, |t|)) == t;
    }
  }

  /** A case-blind suffix fixes each of the last characters. */
  lemma SuffixCharAt(s: string, t: string, i: nat)
    requires i < |t|
    ensures EndsWithCI(s, t) ==> LowerChar(s[|s| - |t| + i]) == t[i]
  {
  }

  predicate KiloSuffix(s: string) { EndsWithCI(s, "k") || EndsWithCI(s, "kb") }

  predicate MegaSuffix(s: string) { EndsWithCI(s, "m") || EndsWithCI(s, "mb") }

  /** `parseSize`: integers pass through, "k"/"kb" multiplies the numeric prefix
      by 1000, "m"/"mb" by 1000000 (decimal units), other strings give no value,
      and anything else is an error. */
  function ParseSize(raw: RawSize): (r: SizeResult)
    ensures raw.IntSize? ==> r == Bytes(raw.n)
    ensures raw.Unset? || raw.OtherSize? ==> r == TypeFailure
    ensures raw.StrSize? && KiloSuffix(raw.s) ==> r == Bytes(LeadingNumber(raw.s) * 1000)
    ensures raw.StrSize? && !KiloSuffix(raw.s) && MegaSuffix(raw.s) ==> r == Bytes(LeadingNumber(raw.s) * 1000000)
    ensures raw.StrSize? && !KiloSuffix(raw.s) && !MegaSuffix(raw.s) ==> r == FormatFailure
  {
    match raw
    case IntSize(n) => Bytes(n)
    case StrSize(s) =>
      TailMatch(s, "k"); TailMatch(s, "kb"); TailMatch(s, "m"); TailMatch(s, "mb");
      if Lower(Tail(s, 1)) == "k" || Lower(Tail(s, 2)) == "kb" then Bytes(LeadingNumber(s) * 1000)
      else if Lower(Tail(s, 1)) == "m" || Lower(Tail(s, 2)) == "mb" then Bytes(LeadingNumber(s) * 1000000)
      else FormatFailure
    case _ => TypeFailure
  }

  /** "2M" is two million bytes: units are decimal, not binary. */
  lemma ParseTwoMega()
    ensures ParseSize(StrSize("2M")) == Bytes(2000000)
  {
    assert DecimalString(2) + "M" == "2M";
    ParseMega(2, "M");
  }

  /** "500K" is five hundred thousand bytes. */
  lemma ParseFiveHundredKilo()
    ensures ParseSize(StrSize("500K")) == Bytes(500000)
  {
    assert DecimalString(5) == "5";
    assert DecimalString(50) == "50";
    assert DecimalString(500) + "K" == "500K";
    ParseKilo(500, "K");
  }

  /** A giga suffix is not a unit the parser knows. */
  lemma ParseGigaIsUnparseable()
    ensures ParseSize(StrSize("2G")) == FormatFailure
  {
    SuffixCharAt("2G", "k", 0);
    SuffixCharAt("2G", "kb", 1);
    SuffixCharAt("2G", "m", 0);
    SuffixCharAt("2G", "mb", 1);
  }

  /** Any text followed by `unit` ends, case-blind, in the lower-cased unit. */
  lemma EndsWithUnit(d: string, unit: string)
    ensures EndsWithCI(d + unit, Lower(unit))
  {
    var l := Lower(unit);
    var s := d + unit;
    assert |s| - |l| == |d|;
    forall i | 0 <= i < |l| ensures LowerChar(s[|d| + i]) == l[i] {
      assert s[|d| + i] == unit[i];
    }
  }

  /** A string ending in a mega unit ends in no kilo unit. */
  lemma MegaNotKilo(d: string, unit: string)
    requires Lower(unit) == "m" || Lower(unit) == "mb"
    ensures MegaSuffix(d + unit) && !KiloSuffix(d + unit)
  {
    var s := d + unit;
    EndsWithUnit(d, unit);
    assert s[|s| - 1] == unit[|unit| - 1];
    assert |unit| == 2 ==> s[|s| - 2] == unit[0];
    SuffixCharAt(s, "k", 0);
    SuffixCharAt(s, "kb", 0);
    SuffixCharAt(s, "kb", 1);
  }

  /** Any number written with a kilo suffix, in any case, parses to that many thousand bytes. */
  lemma ParseKilo(n: nat, unit: string)
    requires Lower(unit) == "k" || Lower(unit) == "kb"
    ensures ParseSize(StrSize(DecimalString(n) + unit)) == Bytes(n * 1000)
  {
    LeadingNumberOfRendered(n, unit);
    EndsWithUnit(DecimalString(n), unit);
  }

  /** Any number written with a mega suffix, in any case, parses to that many million bytes. */
  lemma ParseMega(n: nat, unit: string)
    requires Lower(unit) == "m" || Lower(unit) == "mb"
    ensures ParseSize(StrSize(DecimalString(n) + unit)) == Bytes(n * 1000000)
  {
    LeadingNumberOfRendered(n, unit);
    MegaNotKilo(DecimalString(n), unit);
  }

  /** A plain byte count written as a string carries no unit and parses to nothing. */
  lemma PlainNumberStringIsUnparseable(n: nat)
    ensures ParseSize(StrSize(DecimalString(n))) == FormatFailure
  {
    var s := DecimalString(n);
    var last := s[|s| - 1];
    assert IsDigit(last);
    assert LowerChar(last) == last;
    SuffixCharAt(s, "k", 0);
    SuffixCharAt(s, "kb", 1);
    SuffixCharAt(s, "m", 0);
    SuffixCharAt(s, "mb", 1);
    assert !KiloSuffix(s) && !MegaSuffix(s);
  }

  /** `getMaxSize`'s lazy default: an unset value is replaced by the runtime's
      configured ceiling (a string); a set value is kept. */
  function ResolveMax(raw: RawSize, iniDefault: string): (r: RawSize)
    ensures !r.Unset?
    ensures raw.Unset? ==> r == StrSize(iniDefault)
    ensures !raw.Unset? ==> r == raw
  {
    if raw.Unset? then StrSize(iniDefault) else raw
  }

  /** Once resolved, the stored value no longer depends on the runtime default. */
  lemma ResolveMaxIsCached(raw: RawSize, ini1: string, ini2: string)
    ensures ResolveMax(ResolveMax(raw, ini1), ini2) == ResolveMax(raw, ini1)
  {
  }

  /** `sizeIsOk`'s comparison `!($size > $max)`. When the limit parsed to null,
      PHP compares both sides as booleans, so only a size of 0 passes. */
  function SizeAdmits(size: int, max: SizeResult): (r: Result<bool>)
    ensures max.Bytes? ==> r.Ok? && (r.value <==> size <= max.n)
    ensures max.TypeFailure? ==> r == Thrown(InvalidSizeType)
    ensures max.FormatFailure? ==> r.Ok? && (r.value <==> size == 0)
  {
    match max
    case Bytes(n) => Ok(!(size > n))
    case TypeFailure => Thrown(InvalidSizeType)
    case FormatFailure => Ok(!(size != 0))
  }

  /** A size equal to the limit is accepted; one byte more is not. */
  lemma SizeBoundary(limit: int)
    ensures SizeAdmits(limit, Bytes(limit)) == Ok(true)
    ensures SizeAdmits(limit + 1, Bytes(limit)) == Ok(false)
  {
  }
}
