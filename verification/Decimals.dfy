/** Decimal notation, as `format!` writes it and `str::parse` reads it. */
module Decimals {
  import opened Text
  import opened Wrappers

  function Digit(n: nat): char
    requires n < 10
  {
    "0123456789"[n]
  }

  function Decimal(n: nat): (s: string)
    ensures |s| > 0
  {
    if n < 10 then [Digit(n)] else Decimal(n / 10) + [Digit(n % 10)]
  }

  function Signed(n: int): string {
    if n < 0 then "-" + Decimal(-n) else Decimal(n)
  }

  /** The number that a non-empty run of digits stands for. */
  function DigitsValue(s: string): Option<nat> {
    if s == [] || !('0' <= s[|s| - 1] <= '9') then None
    else
      var last := s[|s| - 1] as int - '0' as int;
      if |s| == 1 then Some(last)
      else
        var front := DigitsValue(s[..|s| - 1]);
        if front.None? then None else Some(10 * front.value + last)
  }

  const I64_MAX: int := 0x7FFF_FFFF_FFFF_FFFF

  /** `s.parse::<i64>().ok()`: an optional sign, then digits, within the width of the type. */
  function ParseI64(s: string): Option<int> {
    var negative := s != [] && s[0] == '-';
    var digits := DigitsValue(if negative || (s != [] && s[0] == '+') then s[1..] else s);
    if digits.None? then None
    else
      var value := (if negative then -1 else 1) * digits.value;
      if -I64_MAX - 1 <= value <= I64_MAX then Some(value) else None
  }

  lemma {:induction false} ReadsBack(n: nat)
    ensures DigitsValue(Decimal(n)) == Some(n)
  {
    if n >= 10 {
      ReadsBack(n / 10);
      assert Decimal(n)[..|Decimal(n)| - 1] == Decimal(n / 10);
    }
  }

  lemma DecimalInjective(n: nat, m: nat)
    requires Decimal(n) == Decimal(m)
    ensures n == m
  {
    ReadsBack(n);
    ReadsBack(m);
  }

  lemma {:induction false} DecimalHasOnlyDigits(n: nat)
    ensures forall i :: 0 <= i < |Decimal(n)| ==> '0' <= Decimal(n)[i] <= '9' && !IsWhitespace(Decimal(n)[i])
  {
    if n >= 10 {
      DecimalHasOnlyDigits(n / 10);
    }
  }

  lemma ParsesDigits(n: nat)
    requires n <= I64_MAX
    ensures ParseI64(Decimal(n)) == Some(n)
  {
    ReadsBack(n);
    DecimalHasOnlyDigits(n);
  }

  lemma ParsesMinus(n: nat)
    requires n <= I64_MAX + 1
    ensures ParseI64("-" + Decimal(n)).Some? && ParseI64("-" + Decimal(n)).value + n == 0
  {
    ReadsBack(n);
    assert ("-" + Decimal(n))[1..] == Decimal(n);
  }

  /** What is written for a 64-bit number is read back as that number. */
  lemma SignedRoundTrip(n: int)
    requires -I64_MAX - 1 <= n <= I64_MAX
    ensures ParseI64(Signed(n)) == Some(n)
  {
    if n < 0 {
      ParsesMinus(-n);
    } else {
      ParsesDigits(n);
    }
  }
}
