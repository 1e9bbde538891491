/**
 * Go's `int` on the js/wasm target (64 bits) and `strconv.Atoi`, which
 * main.go:28 and main.go:36 use to read the size and count arguments.
 */
module Decimal {
  import opened Base

  const MinInt64: int := -0x8000_0000_0000_0000
  const MaxInt64: int := 0x7fff_ffff_ffff_ffff

  predicate IsInt64(n: int) {
    MinInt64 <= n <= MaxInt64
  }

  /** Two's-complement wrap-around of a 64-bit addition result. */
  function Wrap64(n: int): (w: int)
    ensures IsInt64(w)
    ensures (n - w) % 0x1_0000_0000_0000_0000 == 0
  {
    (n - MinInt64) % 0x1_0000_0000_0000_0000 + MinInt64
  }

  /** A value already in range is left alone; one just above the range wraps to the bottom of it. */
  lemma Wrap64Cases(n: int)
    requires MinInt64 <= n <= MaxInt64 + 0x1_0000_0000_0000_0000
    ensures IsInt64(n) ==> Wrap64(n) == n
    ensures n > MaxInt64 ==> Wrap64(n) == n - 0x1_0000_0000_0000_0000
  {
  }

  predicate IsDigit(c: char) {
    '0' <= c <= '9'
  }

  predicate AllDigits(s: string) {
    forall i :: 0 <= i < |s| ==> IsDigit(s[i])
  }

  function DigitValue(c: char): (d: nat)
    requires IsDigit(c)
    ensures d < 10
  {
    c as int - '0' as int
  }

  function DigitChar(d: nat): (c: char)
    requires d < 10
    ensures IsDigit(c) && DigitValue(c) == d
  {
    ('0' as int + d) as char
  }

  /** The number a string of decimal digits denotes, most significant digit first. */
  function DigitsValue(s: string): nat
    requires AllDigits(s)
  {
    if s == [] then 0 else DigitsValue(s[..|s| - 1]) * 10 + DigitValue(s[|s| - 1])
  }

  /**
   * `strconv.Atoi`: an optional '+' or '-' followed by one or more decimal
   * digits, with no spaces and no underscores, whose value fits in 64 bits.
   * Anything else is an error.
   */
  function Atoi(s: string): (r: Option<int>)
    ensures r.Some? ==> IsInt64(r.value)
    ensures r.Some? ==> |s| > 0 && (IsDigit(s[0]) || s[0] == '+' || s[0] == '-')
    ensures r.Some? ==> AllDigits(s[1..])
  {
    var signed := |s| > 0 && (s[0] == '+' || s[0] == '-');
    var body := if signed then s[1..] else s;
    if |body| == 0 || !AllDigits(body) then None
    else
      var v: int := if signed && s[0] == '-' then 0 - DigitsValue(body) as int else DigitsValue(body);
      if IsInt64(v) then Some(v) else None
  }

  /** The decimal digits of `n`, without leading zeros (`strconv.Itoa` of a non-negative number). */
  function Digits(n: nat): string
  {
    if n < 10 then [DigitChar(n)] else Digits(n / 10) + [DigitChar(n % 10)]
  }

  /** `strconv.Itoa`: the decimal form of `n`, with a '-' in front when it is negative. */
  function Itoa(n: int): string
  {
    if n < 0 then "-" + Digits(-n) else Digits(n)
  }

  lemma {:induction false} DigitsRoundTrip(n: nat)
    ensures |Digits(n)| > 0 && AllDigits(Digits(n))
    ensures DigitsValue(Digits(n)) == n
  {
    if n >= 10 {
      DigitsRoundTrip(n / 10);
      var s := Digits(n);
      assert s[..|s| - 1] == Digits(n / 10);
    }
  }

  /** Every 64-bit integer is read back from its decimal form. */
  lemma AtoiItoa(n: int)
    requires IsInt64(n)
    ensures Atoi(Itoa(n)) == Some(n)
  {
    DigitsRoundTrip(if n < 0 then -n else n);
    if n < 0 {
      assert Itoa(n)[1..] == Digits(-n);
    }
  }

  /** A leading '+' and leading zeros do not change the value. */
  lemma {:induction false} AtoiIgnoresPlusAndZeros(s: string)
    requires |s| > 0 && AllDigits(s)
    ensures Atoi("+" + s) == Atoi(s)
    ensures Atoi("0" + s) == Atoi(s)
  {
    assert ("+" + s)[1..] == s;
    ZeroPrefix(s);
  }

  lemma {:induction false} ZeroPrefix(s: string)
    requires AllDigits(s)
    ensures AllDigits("0" + s) && DigitsValue("0" + s) == DigitsValue(s)
  {
    if s != [] {
      var t := "0" + s;
      assert t[..|t| - 1] == "0" + s[..|s| - 1];
      ZeroPrefix(s[..|s| - 1]);
    }
  }

  /** The empty string and a lone sign are rejected. */
  lemma AtoiRejectsEmpty()
    ensures Atoi("") == None && Atoi("-") == None && Atoi("+") == None
  {
  }

  /** The decimal form of a number outside the 64-bit range is rejected, 9223372036854775808 among them. */
  lemma AtoiRejectsOutOfRange(n: int)
    requires !IsInt64(n)
    ensures Atoi(Itoa(n)) == None
  {
    DigitsRoundTrip(if n < 0 then -n else n);
    if n < 0 {
      assert Itoa(n)[1..] == Digits(-n);
    }
  }
}
