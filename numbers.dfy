/** Decimal integers as Rust's `str::parse` reads them (`u8`, `i64`) and as `Display`
    writes them. */
module Numbers {
  import opened Wrappers

  const U8_MAX: nat := 255
  const I64_MIN: int := -0x8000_0000_0000_0000
  const I64_MAX: int := 0x7FFF_FFFF_FFFF_FFFF

  predicate IsDigit(c: char) { '0' <= c <= '9' }

  predicate AllDigits(s: string)
  {
    forall i :: 0 <= i < |s| ==> IsDigit(s[i])
  }

  /** The value of a run of decimal digits, most significant first. */
  function DigitsValue(s: string): nat
    requires AllDigits(s)
  {
    if s == [] then 0 else DigitsValue(s[..|s| - 1]) * 10 + (s[|s| - 1] as int - '0' as int)
  }

  /** The unsigned decimal text of `n`, without sign or leading zeros. */
  function Decimal(n: nat): (s: string)
    ensures s != [] && AllDigits(s)
    ensures |s| > 1 ==> s[0] != '0'
  {
    if n < 10 then [('0' as int + n) as char] else Decimal(n / 10) + [('0' as int + n % 10) as char]
  }

  lemma {:induction false} DecimalValue(n: nat)
    ensures DigitsValue(Decimal(n)) == n
    decreases n
  {
    if n >= 10 {
      DecimalValue(n / 10);
      assert Decimal(n)[..|Decimal(n)| - 1] == Decimal(n / 10);
    }
  }

  /** `u8::from_str`: an optional `+`, then at least one decimal digit, at most 255. */
  function ParseU8(s: string): (r: Option<nat>)
    ensures r.Some? ==> r.value <= U8_MAX
  {
    var digits := if s != [] && s[0] == '+' then s[1..] else s;
    if digits == [] || !AllDigits(digits) then None
    else if DigitsValue(digits) > U8_MAX then None
    else Some(DigitsValue(digits))
  }

  /** `i64::from_str`: an optional `+` or `-`, then at least one decimal digit, in range. */
  function ParseI64(s: string): (r: Option<int>)
    ensures r.Some? ==> I64_MIN <= r.value <= I64_MAX
  {
    var negative := s != [] && s[0] == '-';
    var digits := if s != [] && (s[0] == '+' || s[0] == '-') then s[1..] else s;
    if digits == [] || !AllDigits(digits) then None
    else
      var v: int := if negative then 0 - (DigitsValue(digits) as int) else DigitsValue(digits);
      if v < I64_MIN || v > I64_MAX then None else Some(v)
  }

  /** `Display` of an integer: a `-` for negatives, then the digits. */
  function IntDecimal(x: int): string
  {
    if x < 0 then "-" + Decimal(-x) else Decimal(x)
  }

  /** Reading back what was written gives the number, for every `u8`. */
  lemma ParseU8Decimal(n: nat)
    requires n <= U8_MAX
    ensures ParseU8(Decimal(n)) == Some(n)
  {
    DecimalValue(n);
  }

  /** Reading back what was written gives the number, for every `i64`. */
  lemma ParseI64Decimal(x: int)
    requires I64_MIN <= x <= I64_MAX
    ensures ParseI64(IntDecimal(x)) == Some(x)
  {
    DecimalValue(if x < 0 then -x else x);
    if x < 0 {
      assert IntDecimal(x)[1..] == Decimal(-x);
    }
  }

  /** Text that holds anything but digits after the sign is no number. */
  lemma ParseRejectsNonDigit(s: string, i: nat)
    requires 0 < i < |s| && !IsDigit(s[i])
    ensures ParseU8(s).None? && ParseI64(s).None?
  {
    assert !IsDigit(s[1..][i - 1]);
  }
}
