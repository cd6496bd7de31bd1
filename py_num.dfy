/** Python's numeric conversions as the dashboard uses them: `int(str)`,
    `float(str)`, `str(int)`, `math.ceil` of a quotient and `round` of a
    quotient. Floating-point values are kept exact (see PyFloat). */
module PyNum {
  import opened PyText

  function DigitVal(c: char): nat
    requires IsDigit(c)
  {
    c as int - '0' as int
  }

  function DigitChar(d: nat): char
    requires d < 10
  {
    ('0' as int + d) as char
  }

  /** Every character is a digit or an underscore. */
  predicate DigitsAndUnderscores(s: string) {
    forall i :: 0 <= i < |s| ==> IsDigit(s[i]) || s[i] == '_'
  }

  /** The `digitpart` of Python's numeric literals: decimal digits, with
      single underscores allowed between two digits. */
  predicate DigitPart(s: string) {
    && |s| > 0
    && IsDigit(s[0])
    && IsDigit(s[|s| - 1])
    && DigitsAndUnderscores(s)
    && forall i :: 0 <= i < |s| - 1 && s[i] == '_' ==> IsDigit(s[i + 1])
  }

  /** The number spelled by the digits of `s`, underscores skipped. */
  function DigitsValue(s: string): nat
    requires DigitsAndUnderscores(s)
  {
    if s == [] then 0
    else if s[|s| - 1] == '_' then DigitsValue(s[..|s| - 1])
    else 10 * DigitsValue(s[..|s| - 1]) + DigitVal(s[|s| - 1])
  }

  /** How many digits (not underscores) `s` holds. */
  function DigitsCount(s: string): nat
  {
    if s == [] then 0
    else DigitsCount(s[..|s| - 1]) + (if IsDigit(s[|s| - 1]) then 1 else 0)
  }

  /** `int(s)` on a string: surrounding whitespace, an optional sign and a
      digit part; anything else raises `ValueError` (here `None`). */
  function ParseInt(s: string): Option<int>
  {
    var t := Strip(s);
    if t != [] && (t[0] == '+' || t[0] == '-') then
      var body := t[1..];
      if DigitPart(body) then Some(if t[0] == '-' then -(DigitsValue(body) as int) else DigitsValue(body) as int)
      else None
    else if DigitPart(t) then Some(DigitsValue(t))
    else None
  }

  /** Decimal spelling of a natural number. */
  function NatToStr(n: nat): (r: string)
    ensures r != [] && forall i :: 0 <= i < |r| ==> IsDigit(r[i])
  {
    if n < 10 then [DigitChar(n)] else NatToStr(n / 10) + [DigitChar(n % 10)]
  }

  /** `str(n)` for an integer. */
  function IntToStr(n: int): string
  {
    if n < 0 then "-" + NatToStr(-n) else NatToStr(n)
  }

  /** `str(n)` is one word: digits, after a minus sign when negative. */
  lemma IntToStrWord(n: int)
    ensures IntToStr(n) != [] && NoSpace(IntToStr(n))
  {
    var t := IntToStr(n);
    if n < 0 {
      var d := NatToStr(-n);
      forall j | 0 <= j < |t| ensures !IsSpace(t[j]) {
        if j > 0 { assert t[j] == d[j - 1]; }
      }
    }
  }

  lemma {:induction false} NatToStrValue(n: nat)
    ensures DigitsValue(NatToStr(n)) == n
  {
    var r := NatToStr(n);
    if n >= 10 {
      NatToStrValue(n / 10);
      assert r[..|r| - 1] == NatToStr(n / 10);
    }
  }

  /** A run of digits is a digit part and `int` reads it as its value. */
  lemma ParseIntDigits(w: string)
    requires w != [] && forall i :: 0 <= i < |w| ==> IsDigit(w[i])
    ensures ParseInt(w) == Some(DigitsValue(w))
  {
    StripKeeps(w);
    DigitsArePart(w);
  }

  /** `int(str(n)) == n`: the decimal spelling reads back as the number. */
  lemma ParseIntOfIntToStr(n: int)
    ensures ParseInt(IntToStr(n)) == Some(n)
  {
    if n < 0 {
      ParseNegative(n);
    } else {
      ParseNatToStr(n);
    }
  }

  lemma ParseNegative(n: int)
    requires n < 0
    ensures ParseInt(IntToStr(n)) == Some(n)
  {
    var m: nat := -n;
    var d := NatToStr(m);
    NatToStrValue(m);
    assert -(DigitsValue(d) as int) == n;
    ParseIntNegative(IntToStr(n), d);
  }

  lemma ParseNatToStr(n: nat)
    ensures ParseInt(NatToStr(n)) == Some(n) && ParseInt(IntToStr(n)) == Some(n)
  {
    NatToStrValue(n);
    ParseIntDigits(NatToStr(n));
  }

  /** A minus sign before a run of digits: `int` reads the negated value. */
  lemma ParseIntNegative(t: string, d: string)
    requires t == "-" + d
    requires d != [] && forall i :: 0 <= i < |d| ==> IsDigit(d[i])
    ensures ParseInt(t) == Some(-(DigitsValue(d) as int))
  {
    assert t[|t| - 1] == d[|d| - 1];
    StripKeeps(t);
    DigitsArePart(d);
    ParseIntMinus(t, d);
  }

  /** `int` of a stripped text made of a minus sign and a digit part. */
  lemma ParseIntMinus(t: string, d: string)
    requires t == "-" + d && Strip(t) == t && DigitPart(d)
    ensures ParseInt(t) == Some(-(DigitsValue(d) as int))
  {
    assert t[0] == '-' && t[1..] == d;
  }

  /** Digits alone form a digit part. */
  lemma DigitsArePart(d: string)
    requires d != [] && forall i :: 0 <= i < |d| ==> IsDigit(d[i])
    ensures DigitPart(d) && DigitsAndUnderscores(d)
  {
  }

  /** Result of Python's `float(s)`. Finite values are kept exact: the
      model does not round to the nearest double and does not overflow to
      infinity. */
  datatype PyFloat = Finite(r: real) | Infinity(negative: bool) | NaN

  /** `x > bound` for a Python float compared with a finite bound. */
  predicate Greater(x: PyFloat, bound: real) {
    match x
    case Finite(r) => r > bound
    case Infinity(neg) => !neg
    case NaN => false
  }

  function Pow10(e: nat): (r: nat)
    ensures r >= 1
  {
    if e == 0 then 1 else 10 * Pow10(e - 1)
  }

  /** 10 raised to an integer power, as a real. */
  function Scale10(e: int): real
  {
    if e >= 0 then Pow10(e) as real else 1.0 / (Pow10(-e) as real)
  }

  predicate NotE(c: char) { c != 'e' && c != 'E' }
  predicate NotDot(c: char) { c != '.' }

  /** The mantissa of a float literal: `digitpart "." [digitpart]`,
      `"." digitpart` or `digitpart`. */
  function Mantissa(m: string): Option<real>
  {
    var d := RunLength(m, NotDot);
    var ip := m[..d];
    if d == |m| then
      if DigitPart(ip) then Some(DigitsValue(ip) as real) else None
    else
      var fp := m[d + 1..];
      if (ip == [] || DigitPart(ip)) && (fp == [] || DigitPart(fp)) && !(ip == [] && fp == [])
      then
        assert DigitsAndUnderscores(ip) && DigitsAndUnderscores(fp); Some(DigitsValue(ip) as real + DigitsValue(fp) as real / Pow10(DigitsCount(fp)) as real)
      else None
  }

  /** An exponent part after the `e`: an optional sign and a digit part. */
  function Exponent(x: string): Option<int>
  {
    if x != [] && (x[0] == '+' || x[0] == '-') then
      if DigitPart(x[1..]) then Some(if x[0] == '-' then -(DigitsValue(x[1..]) as int) else DigitsValue(x[1..]) as int)
      else None
    else if DigitPart(x) then Some(DigitsValue(x))
    else None
  }

  /** A decimal float literal without its sign. */
  function Decimal(body: string): Option<real>
  {
    var e := RunLength(body, NotE);
    match Mantissa(body[..e])
    case None => None
    case Some(m) =>
      if e == |body| then Some(m)
      else
        match Exponent(body[e + 1..])
        case None => None
        case Some(x) => Some(m * Scale10(x))
  }

  /** `float(s)`: surrounding whitespace, an optional sign, then `inf`,
      `infinity` or `nan` in any case, or a decimal literal; anything else
      raises `ValueError` (here `None`). */
  function ParseFloat(s: string): Option<PyFloat>
  {
    var t := Strip(s);
    var signed := t != [] && (t[0] == '+' || t[0] == '-');
    var neg := t != [] && t[0] == '-';
    var body := if signed then t[1..] else t;
    var low := Lower(body);
    if low == "inf" || low == "infinity" then Some(Infinity(neg))
    else if low == "nan" then Some(NaN)
    else
      match Decimal(body)
      case None => None
      case Some(v) => Some(Finite(if neg then -v else v))
  }

  /** `math.ceil(a / b)`: the least integer not below the quotient. */
  function CeilDiv(a: int, b: int): (r: int)
    requires b > 0
    ensures (r - 1) * b < a <= r * b
  {
    var q := a / b;
    assert a == q * b + a % b;
    if a % b == 0 then q else q + 1
  }

  /** `round(n / d)`: the integer nearest the quotient, halves going to
      the even neighbour. */
  function RoundHalfEven(n: int, d: int): int
    requires d > 0
  {
    var q := n / d;
    var m := n % d;
    if 2 * m < d then q
    else if 2 * m > d then q + 1
    else if q % 2 == 0 then q
    else q + 1
  }

  /** `RoundHalfEven` is a nearest integer to the quotient, the even one on
      a tie. */
  lemma RoundHalfEvenNearest(n: int, d: int)
    requires d > 0
    ensures NearestEven(n, d, RoundHalfEven(n, d))
  {
    var q := n / d;
    var m := n % d;
    assert n == q * d + m && 0 <= m < d;
    assert 2 * n - 2 * q * d == 2 * m;
    assert 2 * n - 2 * (q + 1) * d == 2 * m - 2 * d;
  }

  lemma MulAtLeast(t: int, c: int, d: int)
    requires t >= c && d >= 0
    ensures t * d >= c * d
    ensures t * d - c * d == (t - c) * d
  {
    assert t * d - c * d == (t - c) * d;
  }

  /** `k` is a nearest integer to `n / d`, an even one on a tie. */
  predicate NearestEven(n: int, d: int, k: int)
    requires d > 0
  {
    && -d <= 2 * n - 2 * k * d <= d
    && ((2 * n - 2 * k * d == d || 2 * n - 2 * k * d == -d) ==> k % 2 == 0)
  }

  lemma {:induction false} NearestEvenUnique(n: int, d: int, k: int, r: int)
    requires d > 0 && NearestEven(n, d, k) && NearestEven(n, d, r) && k <= r
    ensures k == r
  {
    if r > k {
      MulAtLeast(r, k + 1, d);
      MulAtLeast(k + 1, k, d);
      if r >= k + 2 {
        MulAtLeast(r, k + 2, d);
        MulAtLeast(k + 2, k, d);
      }
    }
  }

  /** The nearest-integer contract pins `RoundHalfEven` down: any integer
      meeting it is the same integer. */
  lemma RoundHalfEvenUnique(n: int, d: int, k: int)
    requires d > 0 && NearestEven(n, d, k)
    ensures k == RoundHalfEven(n, d)
  {
    var r := RoundHalfEven(n, d);
    RoundHalfEvenNearest(n, d);
    if k <= r { NearestEvenUnique(n, d, k, r); } else { NearestEvenUnique(n, d, r, k); }
  }

  /** Rounding a quotient that lies between 0 and `hi` stays between them. */
  lemma RoundHalfEvenBounds(n: int, d: int, hi: int)
    requires d > 0 && 0 <= n <= hi * d
    ensures 0 <= RoundHalfEven(n, d) <= hi
  {
    var r := RoundHalfEven(n, d);
    RoundHalfEvenNearest(n, d);
    NearestBounds(n, d, hi, r);
  }

  lemma NearestBounds(n: int, d: int, hi: int, r: int)
    requires d > 0 && 0 <= n <= hi * d && -d <= 2 * n - 2 * r * d <= d
    ensures 0 <= r <= hi
  {
    if r < 0 {
      MulAtLeast(0, r + 1, d);
      MulAtLeast(r + 1, r, d);
    }
    if r > hi {
      MulAtLeast(r, hi + 1, d);
      MulAtLeast(hi + 1, hi, d);
    }
  }
}
