/** The Java integer conventions the core leans on: the 32-bit `int` range,
    `Integer.parseInt` (radix 10), the decimal rendering used by string
    concatenation of an `int`/`long`, and division that truncates toward zero. */
module JavaInt {
  import opened Wrappers

  const IntMin: int := -0x8000_0000
  const IntMax: int := 0x7FFF_FFFF

  predicate IsInt32(n: int) {
    IntMin <= n <= IntMax
  }

  /** Java's `/` on integers: the quotient is truncated toward zero. */
  function TruncDiv(a: int, b: int): int
    requires b > 0
  {
    if a >= 0 then a / b else -((-a) / b)
  }

  /** The truncated quotient is the multiple of `b` nearest to `a` on the
      side of zero. */
  lemma TruncDivBounds(a: int, b: int)
    requires b > 0
    ensures 0 <= a ==> 0 <= TruncDiv(a, b) && TruncDiv(a, b) * b <= a < TruncDiv(a, b) * b + b
    ensures a < 0 ==> TruncDiv(a, b) <= 0 && TruncDiv(a, b) * b >= a > TruncDiv(a, b) * b - b
  {
    if a >= 0 {
      DivBounds(a, b);
    } else {
      DivBounds(-a, b);
      NegMul((-a) / b, b);
    }
  }

  lemma DivBounds(n: int, b: int)
    requires n >= 0 && b > 0
    ensures 0 <= n / b && (n / b) * b <= n < (n / b) * b + b
  {
    var q := n / b;
    var r := n % b;
    assert n == b * q + r;
  }

  lemma NegMul(q: int, b: int)
    ensures (-q) * b == -(q * b)
  {
  }

  /** The low 32 bits of an integer read as a signed `int` (Java's `(int)` cast). */
  function Wrap32(n: int): (w: int)
    ensures IsInt32(w)
    ensures IsInt32(n) ==> w == n
  {
    var m := n % 0x1_0000_0000;
    if m <= IntMax then m else m - 0x1_0000_0000
  }

  predicate IsDigit(c: char) {
    '0' <= c <= '9'
  }

  predicate AllDigits(s: string) {
    forall i :: 0 <= i < |s| ==> IsDigit(s[i])
  }

  function DigitValue(c: char): (v: nat)
    requires IsDigit(c)
    ensures v < 10
  {
    (c as int) - ('0' as int)
  }

  function DigitChar(d: nat): (c: char)
    requires d < 10
    ensures IsDigit(c) && DigitValue(c) == d
  {
    (('0' as int) + d) as char
  }

  /** The value of a string of decimal digits, most significant first. */
  function DigitsValue(s: string): nat
    requires AllDigits(s)
  {
    if |s| == 0 then 0 else DigitsValue(s[..|s| - 1]) * 10 + DigitValue(s[|s| - 1])
  }

  /** The shortest decimal digit string of a natural number (no leading zeros). */
  function Digits(n: nat): (s: string)
    ensures |s| > 0
  {
    if n < 10 then [DigitChar(n)] else Digits(n / 10) + [DigitChar(n % 10)]
  }

  /** `String.valueOf(n)` for an `int` or `long`: a minus sign, then the digits. */
  function ToDecimal(n: int): string {
    if n < 0 then "-" + Digits(-n) else Digits(n)
  }

  /** `Integer.parseInt(s)`: an optional `+` or `-`, at least one ASCII digit,
      and a value inside the 32-bit range; anything else is a NumberFormatException,
      rendered here as `None`. */
  function ParseInt(s: string): (r: Option<int>)
    ensures r.Some? ==> IsInt32(r.value)
    ensures |s| == 0 ==> r.None?
    ensures s == "-" || s == "+" ==> r.None?
  {
    if |s| == 0 then None
    else if s[0] == '-' || s[0] == '+' then
      var body := s[1..];
      if |body| == 0 || !AllDigits(body) then None
      else
        var mag: int := DigitsValue(body);
        var v := if s[0] == '-' then -mag else mag;
        if IsInt32(v) then Some(v) else None
    else if AllDigits(s) && IsInt32(DigitsValue(s)) then Some(DigitsValue(s))
    else None
  }

  lemma {:induction false} DigitsAreDigits(n: nat)
    ensures AllDigits(Digits(n))
    ensures DigitsValue(Digits(n)) == n
  {
    if n >= 10 {
      DigitsAreDigits(n / 10);
      var s := Digits(n);
      assert s == Digits(n / 10) + [DigitChar(n % 10)];
      assert s[..|s| - 1] == Digits(n / 10);
    }
  }

  /** Every 32-bit value is read back by `Integer.parseInt` from its own decimal form. */
  lemma ParseIntOfDecimal(n: int)
    requires IsInt32(n)
    ensures ParseInt(ToDecimal(n)) == Some(n)
  {
    if n < 0 {
      DigitsAreDigits(-n);
      var s := ToDecimal(n);
      assert s[1..] == Digits(-n);
    } else {
      DigitsAreDigits(n);
      assert IsDigit(Digits(n)[0]);
    }
  }

  /** A decimal form never starts with `+` and starts with `-` exactly for negatives. */
  lemma DecimalSign(n: int)
    ensures |ToDecimal(n)| > 0
    ensures ToDecimal(n)[0] == '-' <==> n < 0
    ensures ToDecimal(n)[0] != '+'
  {
    if n >= 0 {
      DigitsAreDigits(n);
      assert IsDigit(Digits(n)[0]);
    }
  }
}
