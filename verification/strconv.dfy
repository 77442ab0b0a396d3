/** Base-10 number and boolean parsing as Go's `strconv` package performs it
    for the coercer. Each parser returns the value Go hands back together
    with the error it would report; the coercer stores the value and drops
    the error. */
module GoStrconv {

  /** The error strconv would report alongside the value. */
  datatype NumStatus = Parsed | SyntaxError | RangeError

  datatype UintResult = UintResult(value: nat, status: NumStatus)

  datatype IntResult = IntResult(value: int, status: NumStatus)

  datatype BoolResult = BoolResult(value: bool, status: NumStatus)

  /** The integer widths a struct field can have; `Native` is Go's `int`/`uint`. */
  datatype Width = W8 | W16 | W32 | W64 | Native

  /** Bit size of a width; Go's `int` is taken to be 64 bits wide. */
  function Bits(w: Width): (b: nat)
    ensures 8 <= b <= 64
  {
    match w
    case W8 => 8
    case W16 => 16
    case W32 => 32
    case W64 => 64
    case Native => 64
  }

  function Pow2(n: nat): (r: nat)
    ensures r >= 1
  {
    if n == 0 then 1 else 2 * Pow2(n - 1)
  }

  /** Largest value of an unsigned integer of the width. */
  function MaxUint(w: Width): nat
  {
    Pow2(Bits(w)) - 1
  }

  /** Largest value of a signed integer of the width. */
  function MaxInt(w: Width): nat
  {
    Pow2(Bits(w) - 1) - 1
  }

  /** Smallest value of a signed integer of the width. */
  function MinInt(w: Width): int
  {
    0 - Pow2(Bits(w) - 1)
  }

  predicate IsDigit(c: char) { '0' <= c <= '9' }

  function DigitValue(c: char): (d: nat)
    requires IsDigit(c)
    ensures d < 10
  {
    c as int - '0' as int
  }

  predicate AllDigits(s: string) {
    forall i :: 0 <= i < |s| ==> IsDigit(s[i])
  }

  // ---------------------------------------------------------------------
  // The parsers as Go runs them: one pass over the characters, left to right.
  // ---------------------------------------------------------------------

  /** The digit loop of strconv.ParseUint in base 10, from index `i` with `n`
      accumulated so far: a non-digit ends with 0 and a syntax error; a digit
      that would push the value past `max` ends at once with `max` and a range
      error, without looking at the characters after it. */
  function ScanDigits(s: string, i: nat, n: nat, max: nat): (r: UintResult)
    requires i <= |s| && n <= max
    decreases |s| - i
    ensures r.value <= max
    ensures r.status == SyntaxError ==> r.value == 0
    ensures r.status == RangeError ==> r.value == max
  {
    if i == |s| then UintResult(n, Parsed)
    else if !IsDigit(s[i]) then UintResult(0, SyntaxError)
    else if n * 10 + DigitValue(s[i]) > max then UintResult(max, RangeError)
    else ScanDigits(s, i + 1, n * 10 + DigitValue(s[i]), max)
  }

  /** strconv.ParseUint(s, 10, Bits(w)). */
  function ParseUint(s: string, w: Width): (r: UintResult)
    ensures r.value <= MaxUint(w)
    ensures r.status == SyntaxError ==> r.value == 0
    ensures r.status == RangeError ==> r.value == MaxUint(w)
  {
    if s == "" then UintResult(0, SyntaxError) else ScanDigits(s, 0, 0, MaxUint(w))
  }

  /** strconv.ParseInt(s, 10, Bits(w)): an optional sign, then the unsigned
      digit loop at the full width, then clamping to the signed range. A
      syntax error in the digits gives 0; a magnitude beyond the range gives
      the bound on the side of its sign. */
  function ParseInt(s: string, w: Width): (r: IntResult)
    ensures MinInt(w) <= r.value <= MaxInt(w)
    ensures r.status == SyntaxError ==> r.value == 0
    ensures r.status == RangeError ==>
      |s| > 0 && r.value == (if s[0] == '-' then MinInt(w) else MaxInt(w))
  {
    if s == "" then IntResult(0, SyntaxError)
    else
      var neg := s[0] == '-';
      var digits := if s[0] == '+' || s[0] == '-' then s[1..] else s;
      var u := ParseUint(digits, w);
      var cutoff: int := Pow2(Bits(w) - 1);
      if u.status == SyntaxError then IntResult(0, SyntaxError)
      else if !neg && u.value >= cutoff then IntResult(cutoff - 1, RangeError)
      else if neg && u.value > cutoff then IntResult(-cutoff, RangeError)
      else IntResult(if neg then -(u.value as int) else u.value as int, Parsed)
  }

  predicate IsTrueLiteral(s: string) {
    s == "1" || s == "t" || s == "T" || s == "true" || s == "TRUE" || s == "True"
  }

  predicate IsFalseLiteral(s: string) {
    s == "0" || s == "f" || s == "F" || s == "false" || s == "FALSE" || s == "False"
  }

  /** strconv.ParseBool: true exactly for the true literals; anything that is
      not a literal is a syntax error with value false. */
  function ParseBool(s: string): (r: BoolResult)
    ensures r.value <==> IsTrueLiteral(s)
    ensures r.status == Parsed <==> IsTrueLiteral(s) || IsFalseLiteral(s)
    ensures r.status != RangeError
  {
    if IsTrueLiteral(s) then BoolResult(true, Parsed)
    else if IsFalseLiteral(s) then BoolResult(false, Parsed)
    else BoolResult(false, SyntaxError)
  }

  // ---------------------------------------------------------------------
  // A reference reading of ParseUint, stated over the whole input.
  // ---------------------------------------------------------------------

  /** The value of a string of decimal digits. */
  function DecValue(s: string): nat
    requires AllDigits(s)
  {
    if s == [] then 0 else DecValue(s[..|s| - 1]) * 10 + DigitValue(s[|s| - 1])
  }

  /** Length of the longest prefix made of digits only. */
  function DigitPrefixLength(s: string): (n: nat)
    ensures n <= |s|
    ensures AllDigits(s[..n])
    ensures n < |s| ==> !IsDigit(s[n])
  {
    if s == [] || !IsDigit(s[0]) then 0
    else
      var n := 1 + DigitPrefixLength(s[1..]);
      assert forall i :: 1 <= i < n ==> s[..n][i] == s[1..][..n - 1][i - 1];
      n
  }

  /** What ParseUint returns, read off the whole input: an empty input is a
      syntax error; if the leading run of digits already exceeds the width the
      result is the maximum with a range error, whatever follows; otherwise any
      non-digit makes a syntax error; otherwise the digits' value. */
  function ParseUintSpec(s: string, w: Width): UintResult
  {
    ClampedSpec(s, MaxUint(w))
  }

  /** The whole-input reading for an arbitrary bound `max`. */
  function ClampedSpec(s: string, max: nat): UintResult
  {
    var p := DigitPrefixLength(s);
    if s == "" then UintResult(0, SyntaxError)
    else if DecValue(s[..p]) > max then UintResult(max, RangeError)
    else if p < |s| then UintResult(0, SyntaxError)
    else UintResult(DecValue(s), Parsed)
  }

  /** A longer run of digits never has a smaller value. */
  lemma {:induction false} DecValueMonotone(s: string, a: nat, b: nat)
    requires a <= b <= |s| && AllDigits(s[..b])
    ensures AllDigits(s[..a])
    ensures DecValue(s[..a]) <= DecValue(s[..b])
    decreases b - a
  {
    assert forall i :: 0 <= i < a ==> s[..a][i] == s[..b][i];
    if a < b {
      assert forall i :: 0 <= i < b - 1 ==> s[..b - 1][i] == s[..b][i];
      DecValueMonotone(s, a, b - 1);
      assert s[..b][..b - 1] == s[..b - 1];
    }
  }

  /** One more digit multiplies by ten and adds the digit. */
  lemma DecValueExtend(s: string, i: nat)
    requires i < |s| && AllDigits(s[..i]) && IsDigit(s[i])
    ensures AllDigits(s[..i + 1])
    ensures DecValue(s[..i + 1]) == DecValue(s[..i]) * 10 + DigitValue(s[i])
  {
    assert s[..i + 1][..i] == s[..i];
  }

  lemma {:induction false} ScanDigitsMatchesSpec(s: string, i: nat, max: nat)
    requires |s| > 0 && i <= DigitPrefixLength(s)
    requires AllDigits(s[..i]) && DecValue(s[..i]) <= max
    ensures ScanDigits(s, i, DecValue(s[..i]), max) == ClampedSpec(s, max)
    decreases |s| - i
  {
    if i == |s| {
      assert s[..i] == s;
    } else if !IsDigit(s[i]) {
      ScanStopsAtNonDigit(s, i, max);
    } else {
      DecValueExtend(s, i);
      if DecValue(s[..i + 1]) > max {
        ScanOverflows(s, i, max);
      } else {
        ScanDigitsMatchesSpec(s, i + 1, max);
      }
    }
  }

  /** A non-digit inside the digit run's reach is where the run ends. */
  lemma ScanStopsAtNonDigit(s: string, i: nat, max: nat)
    requires |s| > 0 && i < |s| && i <= DigitPrefixLength(s) && !IsDigit(s[i])
    requires AllDigits(s[..i]) && DecValue(s[..i]) <= max
    ensures ClampedSpec(s, max) == UintResult(0, SyntaxError)
  {
    assert DigitPrefixLength(s) == i;
  }

  /** A digit that carries the value past the bound makes the whole run do so. */
  lemma ScanOverflows(s: string, i: nat, max: nat)
    requires |s| > 0 && i < |s| && i < DigitPrefixLength(s)
    requires AllDigits(s[..i + 1]) && DecValue(s[..i + 1]) > max
    ensures ClampedSpec(s, max) == UintResult(max, RangeError)
  {
    DecValueMonotone(s, i + 1, DigitPrefixLength(s));
  }

  /** Go's left-to-right loop computes exactly the whole-input reading. */
  lemma ParseUintMatchesSpec(s: string, w: Width)
    ensures ParseUint(s, w) == ParseUintSpec(s, w)
  {
    if s != "" {
      assert s[..0] == [];
      ScanDigitsMatchesSpec(s, 0, MaxUint(w));
    }
  }

  /** What ParseInt returns, read off the whole input: after an optional sign,
      a run of digits too large for the unsigned type of the width gives the
      bound on the sign's side with a range error, whatever follows; otherwise
      an empty or non-digit remainder is a syntax error; otherwise the signed
      value, clamped to the bound on its side with a range error when the width
      cannot hold it. So "200x" is a syntax error for 8 bits but "300x" is not. */
  function ParseIntSpec(s: string, w: Width): IntResult
  {
    var neg := |s| > 0 && s[0] == '-';
    var digits := if |s| > 0 && (s[0] == '+' || s[0] == '-') then s[1..] else s;
    var p := DigitPrefixLength(digits);
    var bound := if neg then MinInt(w) else MaxInt(w);
    if digits == "" then IntResult(0, SyntaxError)
    else if DecValue(digits[..p]) > MaxUint(w) then IntResult(bound, RangeError)
    else if p < |digits| then IntResult(0, SyntaxError)
    else
      var m := if neg then 0 - DecValue(digits) else DecValue(digits);
      if MinInt(w) <= m <= MaxInt(w) then IntResult(m, Parsed)
      else IntResult(bound, RangeError)
  }

  /** Go's sign handling followed by the unsigned loop and the cutoff tests
      computes exactly the whole-input reading. */
  lemma ParseIntMatchesSpec(s: string, w: Width)
    ensures ParseInt(s, w) == ParseIntSpec(s, w)
  {
    if s != "" {
      var digits := if s[0] == '+' || s[0] == '-' then s[1..] else s;
      ParseUintMatchesSpec(digits, w);
      if ParseUint(digits, w).status == Parsed {
        ParseIntInRange(s, w, digits);
      } else {
        ParseIntFails(s, w, digits);
      }
    }
  }

  /** When the digits do not parse, the unsigned error carries through. */
  lemma ParseIntFails(s: string, w: Width, digits: string)
    requires s != "" && digits == (if s[0] == '+' || s[0] == '-' then s[1..] else s)
    requires ParseUint(digits, w) == ParseUintSpec(digits, w) && ParseUint(digits, w).status != Parsed
    ensures ParseInt(s, w) == ParseIntSpec(s, w)
  {
    MaxIntBelowMaxUint(w);
  }

  /** When the digits parse, the signed value is clamped at the cutoff. */
  lemma ParseIntInRange(s: string, w: Width, digits: string)
    requires s != "" && digits == (if s[0] == '+' || s[0] == '-' then s[1..] else s)
    requires ParseUint(digits, w) == ParseUintSpec(digits, w) && ParseUint(digits, w).status == Parsed
    ensures ParseInt(s, w) == ParseIntSpec(s, w)
  {
    var p := DigitPrefixLength(digits);
    assert p == |digits| && digits[..p] == digits;
    if s[0] == '-' {
      ParseIntNegative(s, w, digits);
    } else {
      ParseIntNonNegative(s, w, digits);
    }
  }

  lemma ParseIntNegative(s: string, w: Width, digits: string)
    requires s != "" && s[0] == '-' && digits == s[1..]
    requires AllDigits(digits) && digits != ""
    requires ParseUint(digits, w) == UintResult(DecValue(digits), Parsed)
    ensures ParseInt(s, w) == ParseIntSpec(s, w)
  {
    assert DigitPrefixLength(digits) == |digits|;
    assert digits[..|digits|] == digits;
  }

  lemma ParseIntNonNegative(s: string, w: Width, digits: string)
    requires s != "" && s[0] != '-' && digits == (if s[0] == '+' then s[1..] else s)
    requires AllDigits(digits) && digits != ""
    requires ParseUint(digits, w) == UintResult(DecValue(digits), Parsed)
    ensures ParseInt(s, w) == ParseIntSpec(s, w)
  {
    assert DigitPrefixLength(digits) == |digits|;
    assert digits[..|digits|] == digits;
  }

  // ---------------------------------------------------------------------
  // Canonical decimal text, and the round trips through the parsers.
  // ---------------------------------------------------------------------

  function DigitChar(d: nat): (c: char)
    requires d < 10
    ensures IsDigit(c) && DigitValue(c) == d
  {
    ('0' as int + d) as char
  }

  /** strconv.FormatUint(n, 10). */
  function FormatUint(n: nat): (s: string)
    ensures |s| > 0 && AllDigits(s)
  {
    if n < 10 then [DigitChar(n)] else FormatUint(n / 10) + [DigitChar(n % 10)]
  }

  /** strconv.FormatInt(i, 10). */
  function FormatInt(i: int): string
  {
    if i < 0 then "-" + FormatUint(-i) else FormatUint(i)
  }

  lemma {:induction false} DecValueOfFormatUint(n: nat)
    ensures DecValue(FormatUint(n)) == n
  {
    if n >= 10 {
      var s := FormatUint(n);
      DecValueOfFormatUint(n / 10);
      assert s[..|s| - 1] == FormatUint(n / 10);
    }
  }

  /** Every unsigned value of the width survives printing and parsing back. */
  lemma ParseFormatUint(n: nat, w: Width)
    requires n <= MaxUint(w)
    ensures ParseUint(FormatUint(n), w) == UintResult(n, Parsed)
  {
    var s := FormatUint(n);
    DecValueOfFormatUint(n);
    ParseUintMatchesSpec(s, w);
    assert s[..|s|] == s;
  }

  lemma MaxIntBelowMaxUint(w: Width)
    ensures MaxInt(w) < MaxUint(w)
  {
    var b := Bits(w);
    assert Pow2(b) == 2 * Pow2(b - 1);
  }

  /** Every signed value of the width survives printing and parsing back. */
  lemma ParseFormatInt(i: int, w: Width)
    requires MinInt(w) <= i <= MaxInt(w)
    ensures ParseInt(FormatInt(i), w) == IntResult(i, Parsed)
  {
    if i < 0 {
      ParseFormatNegative(i, w);
    } else {
      ParseFormatNonNegative(i, w);
    }
  }

  lemma ParseFormatNegative(i: int, w: Width)
    requires MinInt(w) <= i < 0
    ensures ParseInt(FormatInt(i), w) == IntResult(i, Parsed)
  {
    MaxIntBelowMaxUint(w);
    ParseFormatUint(-i, w);
    ParseIntOfNegated(FormatUint(-i), -i, w);
  }

  /** A minus sign before digits that parse to at most the cutoff negates them. */
  lemma ParseIntOfNegated(d: string, v: nat, w: Width)
    requires ParseUint(d, w) == UintResult(v, Parsed) && v <= Pow2(Bits(w) - 1)
    ensures ParseInt("-" + d, w) == IntResult(0 - v, Parsed)
  {
    assert ("-" + d)[1..] == d;
  }

  lemma ParseFormatNonNegative(i: nat, w: Width)
    requires i <= MaxInt(w)
    ensures ParseInt(FormatInt(i), w) == IntResult(i, Parsed)
  {
    MaxIntBelowMaxUint(w);
    var u := FormatUint(i);
    assert IsDigit(u[0]);
    ParseFormatUint(i, w);
    var cutoff: int := Pow2(Bits(w) - 1);
    assert i < cutoff;
  }

  /** A text with a character that is not a digit, sign or anything numeric
      before any overflow parses to 0, e.g. "abc" for any width. */
  lemma NonNumericParsesToZero(s: string, w: Width)
    requires |s| > 0 && !IsDigit(s[0]) && s[0] != '+' && s[0] != '-'
    ensures ParseUint(s, w) == UintResult(0, SyntaxError)
    ensures ParseInt(s, w) == IntResult(0, SyntaxError)
  {
  }

  /** Once the leading digits exceed the width, trailing garbage is never
      examined: the result is the bound, not zero. */
  lemma OverflowBeforeGarbage()
    ensures ParseUint("256x", W8) == UintResult(255, RangeError)
  {
  }
}
