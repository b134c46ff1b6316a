/** Decimal numbers in ASCII: printing them, and reading them as Rust and Python do. */
module Decimal {
  import opened Common
  import opened Bytes

  const ZERO: byte := 48

  predicate IsDigit(b: byte) { ZERO <= b <= 57 }

  predicate AllDigits(s: seq<byte>) {
    forall k | 0 <= k < |s| :: IsDigit(s[k])
  }

  function Print(n: nat): (s: seq<byte>)
    ensures |s| > 0 && AllDigits(s)
  {
    if n < 10 then [48 + n] else Print(n / 10) + [48 + n % 10]
  }

  function DigitsValue(s: seq<byte>): nat
    requires AllDigits(s)
  {
    if s == [] then 0 else 10 * DigitsValue(s[..|s| - 1]) + (s[|s| - 1] - ZERO)
  }

  lemma {:induction false} PrintedValue(n: nat)
    ensures DigitsValue(Print(n)) == n
  {
    if n >= 10 {
      PrintedValue(n / 10);
      var s := Print(n);
      assert s[..|s| - 1] == Print(n / 10);
    }
  }

  function Pow10(n: nat): nat {
    if n == 0 then 1 else 10 * Pow10(n - 1)
  }

  lemma {:induction false} Pow10Grows(m: nat, n: nat)
    requires m <= n
    ensures Pow10(m) <= Pow10(n)
  {
    if m < n {
      Pow10Grows(m, n - 1);
    }
  }

  lemma {:induction false} PrintedLength(n: nat, width: nat)
    requires width > 0 && n < Pow10(width)
    ensures |Print(n)| <= width
  {
    if n >= 10 {
      assert width > 1 by { assert Pow10(0) == 1; }
      PrintedLength(n / 10, width - 1);
    }
  }

  lemma {:induction false} DigitsBound(s: seq<byte>)
    requires AllDigits(s)
    ensures DigitsValue(s) < Pow10(|s|)
  {
    if s != [] {
      DigitsBound(s[..|s| - 1]);
    }
  }

  /** `str::parse::<usize>`: an optional plus sign and at least one digit, the value below 2^64. */
  function ParseUsize(s: seq<byte>): Option<nat> {
    var digits := if |s| > 0 && s[0] == 43 then s[1..] else s;
    if digits != [] && AllDigits(digits) && DigitsValue(digits) < U64 then Some(DigitsValue(digits)) else None
  }

  /** What is not a run of the ten digits, behind at most one plus sign, is no number. */
  lemma ParsedExactly(s: seq<byte>, sign: seq<byte>, digits: seq<byte>)
    requires s == sign + digits && (sign == [] || sign == [43]) && (digits == [] || digits[0] != 43)
    ensures ParseUsize(s).Some? <==> |digits| > 0 && (forall k | 0 <= k < |digits| :: 48 <= digits[k] <= 57)
                                     && DigitsValue(digits) < 0x1_0000_0000_0000_0000
    ensures ParseUsize(s).Some? ==> ParseUsize(s).value == DigitsValue(digits)
  {
    if sign == [] {
      assert s == digits;
    } else {
      assert s[1..] == digits;
    }
  }

  lemma ParsedBack(n: nat)
    requires n < U64
    ensures ParseUsize(Print(n)) == Some(n)
  {
    PrintedValue(n);
  }
}
