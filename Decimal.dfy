/** Decimal text of Java integers: `String.valueOf` on an `int` or a `long`
    (and string concatenation with one), `Integer.parseInt`, and Java's
    integer division, which truncates toward zero. */
module Decimal {
  import opened Wrappers

  const MinInt: int := -0x8000_0000
  const MaxInt: int := 0x7fff_ffff

  /** The range of a Java `int`. */
  predicate IsJavaInt(n: int) {
    MinInt <= n <= MaxInt
  }

  predicate IsDigit(c: char) {
    '0' <= c <= '9'
  }

  predicate AllDigits(s: string) {
    forall i :: 0 <= i < |s| ==> IsDigit(s[i])
  }

  function DigitChar(d: nat): (c: char)
    requires d < 10
    ensures IsDigit(c)
  {
    ('0' as int + d) as char
  }

  function DigitValue(c: char): nat
    requires IsDigit(c)
  {
    c as int - '0' as int
  }

  /** The decimal digits of `n`, most significant first, without leading zeros. */
  function Digits(n: nat): (s: string)
    ensures s != [] && AllDigits(s)
    ensures s[0] == '0' ==> n == 0
    decreases n
  {
    if n < 10 then [DigitChar(n)] else Digits(n / 10) + [DigitChar(n % 10)]
  }

  /** `String.valueOf(n)`: a minus sign for a negative value, then the digits
      of its magnitude. */
  function ValueOf(n: int): (s: string)
    ensures |s| > (if n < 0 then 1 else 0)
    ensures s[0] == '-' <==> n < 0
    ensures AllDigits(s[(if n < 0 then 1 else 0)..])
  {
    if n < 0 then "-" + Digits(-n) else Digits(n)
  }

  /** The value of a non-empty run of decimal digits. */
  function DigitsValue(s: string): nat
    requires AllDigits(s)
    decreases |s|
  {
    if s == [] then 0 else DigitsValue(s[..|s| - 1]) * 10 + DigitValue(s[|s| - 1])
  }

  /** `Integer.parseInt(s)` for ASCII decimal text: an optional minus sign and
      at least one digit, whose value must fit in an `int`. `None` stands for
      the `NumberFormatException` Java throws otherwise. */
  function ParseInt(s: string): (r: Option<int>)
    ensures r.Some? ==> IsJavaInt(r.value)
    ensures r.Some? ==> s != [] && AllDigits(if s[0] == '-' then s[1..] else s)
  {
    var v: Option<int> :=
      if |s| >= 2 && s[0] == '-' && AllDigits(s[1..]) then Some(-(DigitsValue(s[1..]) as int))
      else if |s| >= 1 && AllDigits(s) then Some(DigitsValue(s))
      else None;
    if v.Some? && IsJavaInt(v.value) then v else None
  }

  lemma {:induction false} DigitsRoundTrip(n: nat)
    ensures DigitsValue(Digits(n)) == n
    decreases n
  {
    if n >= 10 {
      DigitsRoundTrip(n / 10);
      var s := Digits(n);
      assert s[..|s| - 1] == Digits(n / 10);
    }
  }

  /** Unsigned digits parse to their value when it fits in an `int`. */
  lemma ParseUnsigned(s: string)
    requires s != [] && AllDigits(s)
    ensures ParseInt(s) == if IsJavaInt(DigitsValue(s)) then Some(DigitsValue(s)) else None
  {
    assert IsDigit(s[0]);
  }

  /** A minus sign and digits parse to the negated value when it fits. */
  lemma ParseNegative(d: string)
    requires d != [] && AllDigits(d)
    ensures var v := -(DigitsValue(d) as int);
      ParseInt("-" + d) == if IsJavaInt(v) then Some(v) else None
  {
    var s := "-" + d;
    assert s[0] == '-' && s[1..] == d;
  }

  /** Every `int` the servlet writes into a link is read back unchanged by
      `Integer.parseInt`. */
  lemma ParseValueOf(n: int)
    requires IsJavaInt(n)
    ensures ParseInt(ValueOf(n)) == Some(n)
  {
    if n < 0 {
      var d := Digits(-n);
      DigitsRoundTrip(-n);
      ParseNegative(d);
      assert ValueOf(n) == "-" + d;
    } else {
      var d := Digits(n);
      DigitsRoundTrip(n);
      ParseUnsigned(d);
      assert ValueOf(n) == d;
    }
  }

  /** Java's `a / b` for a positive divisor: the quotient truncated toward
      zero (Dafny's own `/` rounds toward negative infinity for negative `a`). */
  function JavaDiv(a: int, b: int): int
    requires b > 0
  {
    if a >= 0 then a / b else -((-a) / b)
  }

  /** Euclidean division of a natural number: the quotient's multiple of `b`
      lies at most `b - 1` below the dividend. */
  lemma NatDivBounds(n: nat, b: int)
    requires b > 0
    ensures 0 <= n / b && (n / b) * b <= n < (n / b) * b + b
  {
    assert n == (n / b) * b + n % b;
  }

  /** The quotient is the multiple of `b` nearest to `a` on the side of zero:
      below `a` for a non-negative `a`, above it for a negative one. */
  lemma JavaDivTruncates(a: int, b: int)
    requires b > 0
    ensures a >= 0 ==> 0 <= JavaDiv(a, b) && JavaDiv(a, b) * b <= a < JavaDiv(a, b) * b + b
    ensures a < 0 ==> JavaDiv(a, b) <= 0 && JavaDiv(a, b) * b - b < a <= JavaDiv(a, b) * b
  {
    if a >= 0 {
      NatDivBounds(a, b);
    } else {
      var p := (-a) / b;
      NatDivBounds(-a, b);
      assert JavaDiv(a, b) * b == -(p * b);
    }
  }
}
