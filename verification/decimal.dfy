/**
 Signed 64-bit integers and their decimal text: `i64::to_string`, `str::parse::<i64>`, and the
 wrapping subtraction and absolute value of a build without overflow checks.
 */
module Decimal {
  import opened Wrappers
  import opened Text

  const MIN_I64 := -0x8000_0000_0000_0000
  const MAX_I64 := 0x7FFF_FFFF_FFFF_FFFF

  type i64 = x: int | MIN_I64 <= x <= MAX_I64

  predicate FitsI64(x: int) {
    MIN_I64 <= x <= MAX_I64
  }

  /** Two's complement wrap-around to 64 bits. */
  function WrapI64(x: int): i64 {
    (x - MIN_I64) % 0x1_0000_0000_0000_0000 + MIN_I64
  }

  /** `i64::abs`, whose one overflow wraps back to the minimum. */
  function AbsI64(x: i64): i64 {
    if x >= 0 then x else WrapI64(0 - x)
  }

  function Magnitude(x: int): nat {
    if x >= 0 then x else -x
  }

  // ---- Text ---------------------------------------------------------------------

  predicate IsDigit(c: char) {
    '0' <= c <= '9'
  }

  predicate AllDigits(s: string) {
    forall i :: 0 <= i < |s| ==> IsDigit(s[i])
  }

  function DigitChar(d: nat): (c: char)
    requires d < 10
    ensures IsDigit(c)
  {
    (0x30 + d) as char
  }

  function DigitValue(c: char): (d: nat)
    requires IsDigit(c)
    ensures d < 10
  {
    c as int - 0x30
  }

  function PrintNat(n: nat): string {
    if n < 10 then [DigitChar(n)] else PrintNat(n / 10) + [DigitChar(n % 10)]
  }

  /** `i64::to_string`. */
  function PrintI64(n: i64): string {
    if n < 0 then "-" + PrintNat(0 - n) else PrintNat(n)
  }

  /** The number a string of digits denotes. */
  function Value(digits: string): nat
    requires AllDigits(digits)
  {
    if digits == "" then 0
    else Value(digits[..|digits| - 1]) * 10 + DigitValue(digits[|digits| - 1])
  }

  /**
   The checked accumulation of `i64::from_str`: multiply by ten, then add or subtract the
   digit, giving up on a non-digit and on each overflow.
   */
  function Accumulate(s: string, positive: bool): Option<i64> {
    if s == "" then Some(0) else
    match Accumulate(s[..|s| - 1], positive)
    case None => None
    case Some(acc) =>
      var c := s[|s| - 1];
      if !IsDigit(c) || !FitsI64(acc * 10) then None else
      var next := if positive then acc * 10 + DigitValue(c) else acc * 10 - DigitValue(c);
      if FitsI64(next) then Some(next) else None
  }

  /** `str::parse::<i64>`: one optional sign, then at least one digit. */
  function ParseI64(s: string): Option<i64> {
    if s == "" || s == "+" || s == "-" then None
    else if s[0] == '+' then Accumulate(s[1..], true)
    else if s[0] == '-' then Accumulate(s[1..], false)
    else Accumulate(s, true)
  }

  /** What a decimal integer text means: an optional sign and digits, leading zeros allowed. */
  ghost predicate Denotes(s: string, n: int) {
    || (s != "" && AllDigits(s) && n == Value(s))
    || (|s| > 1 && AllDigits(s[1..]) && s[0] == '+' && n == Value(s[1..]))
    || (|s| > 1 && AllDigits(s[1..]) && s[0] == '-' && n == 0 - Value(s[1..]))
  }

  // ---- The accumulation computes the denoted number ---------------------------------

  lemma {:induction false} AccumulateExact(s: string, positive: bool)
    ensures Accumulate(s, positive) ==
            if AllDigits(s) && FitsI64(if positive then Value(s) else 0 - Value(s))
            then Some(if positive then Value(s) else 0 - Value(s)) else None
  {
    if s != "" {
      var init, c := s[..|s| - 1], s[|s| - 1];
      AccumulateExact(init, positive);
      assert s == init + [c];
      assert AllDigits(s) <==> AllDigits(init) && IsDigit(c);
    }
  }

  /** Parsing succeeds exactly on a decimal text whose number fits, and yields that number. */
  lemma ParseExact(s: string, n: i64)
    ensures ParseI64(s) == Some(n) <==> Denotes(s, n)
  {
    if s != "" {
      AccumulateExact(s, true);
      AccumulateExact(s[1..], true);
      AccumulateExact(s[1..], false);
      assert IsDigit(s[0]) || !AllDigits(s);
    }
  }

  // ---- Printing and parsing are inverse ------------------------------------------------

  lemma {:induction false} PrintNatDenotes(n: nat)
    ensures PrintNat(n) != "" && AllDigits(PrintNat(n)) && Value(PrintNat(n)) == n
  {
    if n < 10 {
      assert Value([DigitChar(n)][..0]) == 0;
    } else {
      PrintNatDenotes(n / 10);
      assert PrintNat(n)[..|PrintNat(n)| - 1] == PrintNat(n / 10);
    }
  }

  lemma ParsePrintI64(n: i64)
    ensures ParseI64(PrintI64(n)) == Some(n)
  {
    PrintNatDenotes(Magnitude(n));
    if n < 0 {
      assert PrintI64(n)[1..] == PrintNat(0 - n);
    }
    ParseExact(PrintI64(n), n);
  }

  /** The digits in order. */
  lemma DigitsExact(d: nat)
    requires d < 10
    ensures DigitChar(d) == "0123456789"[d] && DigitValue("0123456789"[d]) == d
  {
  }

  /** Digits without a leading zero, except in "0" itself. */
  predicate IsNumeral(digits: string) {
    digits != "" && AllDigits(digits) && (digits[0] == '0' ==> digits == "0")
  }

  /** The decimal text of a number: a numeral of its magnitude, a minus in front if it is negative. */
  predicate IsDecimalText(s: string, n: int) {
    if n < 0 then |s| > 1 && s[0] == '-' && IsNumeral(s[1..]) && Value(s[1..]) == 0 - n
    else IsNumeral(s) && Value(s) == n
  }

  lemma {:induction false} PrintNatIsNumeral(n: nat)
    ensures IsNumeral(PrintNat(n)) && (n > 0 ==> PrintNat(n)[0] != '0')
  {
    PrintNatDenotes(n);
    if n >= 10 {
      PrintNatIsNumeral(n / 10);
    }
  }

  lemma {:induction false} LeadingDigitCounts(s: string)
    requires IsNumeral(s) && s != "0"
    ensures Value(s) > 0 && (|s| > 1 ==> Value(s) >= 10)
  {
    if |s| == 1 {
      assert s[..0] == "";
      assert s == [s[0]];
    } else {
      LeadingDigitCounts(s[..|s| - 1]);
    }
  }

  /** A number has one numeral. */
  lemma {:induction false} NumeralUnique(s: string, t: string)
    requires IsNumeral(s) && IsNumeral(t) && Value(s) == Value(t)
    ensures s == t
    decreases |s|
  {
    if s != "0" { LeadingDigitCounts(s); }
    if t != "0" { LeadingDigitCounts(t); }
    if |s| > 1 && |t| > 1 {
      LastDigitIsRemainder(s);
      LastDigitIsRemainder(t);
      NumeralUnique(s[..|s| - 1], t[..|t| - 1]);
      assert s == s[..|s| - 1] + [s[|s| - 1]] && t == t[..|t| - 1] + [t[|t| - 1]];
    } else {
      assert Value("0"[..0]) == 0 && Value("0") == 0;
      OneDigitValue(s);
      OneDigitValue(t);
    }
  }

  lemma OneDigitValue(s: string)
    requires IsNumeral(s)
    ensures |s| == 1 ==> Value(s) == DigitValue(s[0]) < 10 && s == [s[0]]
  {
    if |s| == 1 {
      assert s[..0] == "";
    }
  }

  lemma LastDigitIsRemainder(s: string)
    requires s != "" && AllDigits(s)
    ensures DigitValue(s[|s| - 1]) == Value(s) % 10 && Value(s[..|s| - 1]) == Value(s) / 10
  {
  }

  /** Printing yields the decimal text of the number, and nothing else is one. */
  lemma PrintExact(n: i64, s: string)
    ensures PrintI64(n) == s <==> IsDecimalText(s, n)
  {
    PrintNatDenotes(Magnitude(n));
    PrintNatIsNumeral(Magnitude(n));
    if n < 0 {
      assert PrintI64(n)[1..] == PrintNat(0 - n);
      if IsDecimalText(s, n) {
        NumeralUnique(s[1..], PrintNat(0 - n));
        assert s == [s[0]] + s[1..];
      }
    } else if IsDecimalText(s, n) {
      NumeralUnique(s, PrintNat(n));
    }
  }

  /** A text that parses has no dot, no whitespace, and something in it. */
  lemma ParsedTextIsPlain(s: string)
    requires ParseI64(s).Some?
    ensures s != "" && '.' !in s && IsTrimmed(s) && IsAscii(s)
  {
    ParseExact(s, ParseI64(s).value);
    assert forall i :: 1 <= i < |s| ==> s[i] == s[1..][i - 1];
    assert forall i :: 0 <= i < |s| ==> IsDigit(s[i]) || (i == 0 && (s[0] == '+' || s[0] == '-'));
  }

  // ---- 64-bit arithmetic -----------------------------------------------------------------

  /** The wrapped absolute difference is the true one exactly when that fits in 64 bits. */
  lemma WrappedSkewExact(a: i64, b: i64)
    ensures AbsI64(WrapI64(a - b)) == Magnitude(a - b) <==> Magnitude(a - b) <= MAX_I64
    ensures Magnitude(a - b) == MAX_I64 + 1 ==> AbsI64(WrapI64(a - b)) == MIN_I64
    ensures Magnitude(a - b) > MAX_I64 + 1 ==>
              AbsI64(WrapI64(a - b)) == 0x1_0000_0000_0000_0000 - Magnitude(a - b)
  {
  }
}
