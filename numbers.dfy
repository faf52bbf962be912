/** Decimal text of unsigned integers: Rust's `Display` for `usize`/`u16`
    (as used by `format!`) and `str::parse::<usize>()`. */
module Numbers {
  import opened Wrappers

  /** The largest `usize` on a 64-bit target. */
  const USIZE_MAX: nat := 0xFFFF_FFFF_FFFF_FFFF

  predicate IsDigit(c: char)
  {
    '0' <= c <= '9'
  }

  predicate AllDigits(s: string)
  {
    forall i :: 0 <= i < |s| ==> IsDigit(s[i])
  }

  function DigitChar(d: nat): (c: char)
    requires d < 10
    ensures IsDigit(c)
  {
    ('0' as int + d) as char
  }

  function DigitValue(c: char): nat
    requires IsDigit(c)
  {
    c as int - '0' as int
  }

  /** The number a string of decimal digits denotes (leading zeros allowed). */
  function DigitsValue(s: string): nat
    requires AllDigits(s)
  {
    if s == [] then 0 else DigitsValue(s[..|s| - 1]) * 10 + DigitValue(s[|s| - 1])
  }

  /** `format!("{}", n)`: decimal digits without leading zeros. */
  function Decimal(n: nat): (s: string)
    ensures |s| >= 1 && AllDigits(s)
    ensures DigitsValue(s) == n
    ensures s[0] == '0' ==> n == 0
  {
    if n < 10 then [DigitChar(n)]
    else
      var s := Decimal(n / 10) + [DigitChar(n % 10)];
      assert s[..|s| - 1] == Decimal(n / 10);
      s
  }

  /** `s.parse::<usize>()`: an optional `+`, then at least one decimal digit,
      and no overflow past `USIZE_MAX`. */
  function ParseUsize(s: string): (r: Option<nat>)
    ensures r.Some? ==> r.value <= USIZE_MAX
    ensures r.Some? ==> s != [] && s != "+"
    ensures r.Some? ==> forall i :: 0 <= i < |s| ==> IsDigit(s[i]) || (i == 0 && s[i] == '+')
  {
    var digits := if |s| > 0 && s[0] == '+' then s[1..] else s;
    if digits == [] || !AllDigits(digits) then None
    else if DigitsValue(digits) <= USIZE_MAX then Some(DigitsValue(digits))
    else None
  }

  /** Parsing the printed form of a number gives the number back exactly
      when it fits in a `usize`, with or without a leading `+`. */
  lemma ParseDecimal(n: nat)
    ensures ParseUsize(Decimal(n)) == (if n <= USIZE_MAX then Some(n) else None)
    ensures ParseUsize("+" + Decimal(n)) == (if n <= USIZE_MAX then Some(n) else None)
  {
    assert ("+" + Decimal(n))[1..] == Decimal(n);
  }

  /** Every non-empty string of digits parses, with or without a leading
      `+`, to the number it denotes exactly when that fits in a `usize`;
      leading zeros are allowed. */
  lemma ParseDigits(s: string)
    requires s != [] && AllDigits(s)
    ensures ParseUsize(s) == (if DigitsValue(s) <= USIZE_MAX then Some(DigitsValue(s)) else None)
    ensures ParseUsize("+" + s) == (if DigitsValue(s) <= USIZE_MAX then Some(DigitsValue(s)) else None)
  {
    assert ("+" + s)[1..] == s;
  }

  /** A leading zero does not change what a string of digits denotes. */
  lemma {:induction false} LeadingZero(s: string)
    requires AllDigits(s)
    ensures AllDigits("0" + s) && DigitsValue("0" + s) == DigitsValue(s)
    decreases |s|
  {
    var t := "0" + s;
    if s != [] {
      assert t[..|t| - 1] == "0" + s[..|s| - 1];
      LeadingZero(s[..|s| - 1]);
    }
  }

  /** `parse::<usize>()` ignores leading zeros: `007` parses as `7`, also
      behind a `+`. */
  lemma LeadingZeros(s: string)
    requires s != [] && AllDigits(s)
    ensures ParseUsize("0" + s) == ParseUsize(s)
    ensures ParseUsize("+" + ("0" + s)) == ParseUsize("+" + s)
  {
    LeadingZero(s);
    ParseDigits(s);
    ParseDigits("0" + s);
  }

  /** A three-digit number prints as its three digits. */
  lemma Decimal3(n: nat)
    requires 100 <= n <= 999
    ensures Decimal(n) == [DigitChar(n / 100), DigitChar(n / 10 % 10), DigitChar(n % 10)]
  {
    assert Decimal(n / 10) == Decimal(n / 100) + [DigitChar(n / 10 % 10)];
    assert n / 10 / 10 == n / 100;
  }
}
