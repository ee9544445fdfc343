/** Arbitrary-precision integers (BigInteger) as Dafny `int`: powers, decimal
    digit strings, BigInteger.ToString / BigInteger.Parse / int.Parse, and
    the truncating division of BigInteger. */
module Digits {
  import opened Results
  import opened Text

  const INT32_MIN := -0x8000_0000
  const INT32_MAX := 0x7fff_ffff

  function Abs(z: int): nat { if z < 0 then -z else z }

  /** BigInteger.Pow for a non-negative exponent; Pow(b, 0) == 1 for every b. */
  function Pow(b: int, e: nat): (r: int)
    ensures b >= 1 ==> r >= 1
  {
    if e == 0 then 1 else b * Pow(b, e - 1)
  }

  lemma {:induction false} PowPositive(b: int, e: nat)
    requires b >= 1
    ensures Pow(b, e) >= 1
  {
    if e > 0 {
      PowPositive(b, e - 1);
      MulAtLeast(b, Pow(b, e - 1));
    }
  }

  lemma {:induction false} MulAtLeast(a: int, b: int)
    requires a >= 1 && b >= 1
    ensures a * b >= b && a * b >= a
  {}

  lemma {:induction false} PowAdd(b: int, e1: nat, e2: nat)
    ensures Pow(b, e1 + e2) == Pow(b, e1) * Pow(b, e2)
  {
    if e1 > 0 {
      PowAdd(b, e1 - 1, e2);
      assert Pow(b, e1 + e2) == b * Pow(b, e1 - 1 + e2);
    }
  }

  lemma {:induction false} PowMul(b: int, e1: nat, e2: nat)
    ensures Pow(Pow(b, e1), e2) == Pow(b, e1 * e2)
  {
    if e2 > 0 {
      PowMul(b, e1, e2 - 1);
      PowAdd(b, e1, e1 * (e2 - 1));
      assert e1 + e1 * (e2 - 1) == e1 * e2;
    }
  }

  lemma {:induction false} PowNonNegative(b: int, e: nat)
    requires b >= 0
    ensures Pow(b, e) >= 0
  {
    if e > 0 { PowNonNegative(b, e - 1); }
  }

  /** Pow is monotone in its base on the non-negative integers. */
  lemma {:induction false} PowMonotone(a: int, b: int, e: nat)
    requires 0 <= a <= b
    ensures Pow(a, e) <= Pow(b, e)
  {
    if e > 0 {
      PowMonotone(a, b, e - 1);
      PowNonNegative(a, e - 1);
      MulMonotone(a, Pow(a, e - 1), b, Pow(b, e - 1));
    }
  }

  lemma {:induction false} MulMonotone(a: int, x: int, b: int, y: int)
    requires 0 <= a <= b && 0 <= x <= y
    ensures a * x <= b * y
  {
    assert a * x <= b * x;
    assert b * x <= b * y;
  }

  lemma {:induction false} PowStrict(a: int, b: int, e: nat)
    requires 0 <= a < b && e >= 1
    ensures Pow(a, e) < Pow(b, e)
  {
    PowMonotone(a, b, e - 1);
    PowNonNegative(a, e - 1);
    PowPositive(b, e - 1);
    assert a * Pow(a, e - 1) <= a * Pow(b, e - 1);
    assert a * Pow(b, e - 1) < b * Pow(b, e - 1);
  }

  /** The digit character for 0 to 9. */
  function DigitChar(d: nat): (c: char)
    requires d < 10
    ensures IsDigit(c)
  {
    (d + 48) as char
  }

  function DigitValue(c: char): (d: nat)
    requires IsDigit(c)
    ensures d < 10
  {
    c as int - 48
  }

  /** The number a string of decimal digits denotes (leading zeros allowed). */
  function DigitsValue(s: string): nat
    requires AllDigits(s)
  {
    if s == [] then 0 else 10 * DigitsValue(s[..|s| - 1]) + DigitValue(s[|s| - 1])
  }

  /** The canonical decimal digits of a natural number, as BigInteger.ToString
      writes them: no leading zero except for zero itself. */
  function NatToDigits(m: nat): (s: string)
    ensures |s| >= 1 && AllDigits(s)
    ensures (s[0] == '0') == (m == 0)
    ensures m == 0 ==> s == "0"
    ensures m < 10 <==> |s| == 1
  {
    if m < 10 then [DigitChar(m)] else NatToDigits(m / 10) + [DigitChar(m % 10)]
  }

  /** BigInteger.ToString under the invariant culture. */
  function IntToString(z: int): string {
    if z < 0 then "-" + NatToDigits(-z) else NatToDigits(z)
  }

  lemma {:induction false} DigitsRoundTrip(m: nat)
    ensures DigitsValue(NatToDigits(m)) == m
  {
    if m >= 10 {
      DigitsRoundTrip(m / 10);
      var s := NatToDigits(m);
      assert s[..|s| - 1] == NatToDigits(m / 10);
    }
  }

  /** The value of a concatenation: the left part is shifted by |t| places. */
  lemma {:induction false} DigitsAppend(s: string, t: string)
    requires AllDigits(s) && AllDigits(t)
    ensures AllDigits(s + t)
    ensures DigitsValue(s + t) == DigitsValue(s) * Pow(10, |t|) + DigitsValue(t)
  {
    if t == [] {
      assert s + t == s;
    } else {
      var st := s + t;
      var t' := t[..|t| - 1];
      assert st[..|st| - 1] == s + t';
      assert st[|st| - 1] == t[|t| - 1];
      DigitsAppend(s, t');
      var a, p, b, d := DigitsValue(s), Pow(10, |t'|), DigitsValue(t'), DigitValue(t[|t| - 1]);
      assert DigitsValue(st) == 10 * (a * p + b) + d;
      assert DigitsValue(t) == 10 * b + d;
      assert Pow(10, |t|) == 10 * p;
      ShiftDigit(a, p, b, d);
    }
  }

  lemma {:induction false} ShiftDigit(a: int, p: int, b: int, d: int)
    ensures 10 * (a * p + b) + d == a * (10 * p) + (10 * b + d)
  {}

  lemma {:induction false} ZerosValue(k: nat)
    ensures AllDigits(Zeros(k)) && DigitsValue(Zeros(k)) == 0
  {
    if k > 0 {
      ZerosValue(k - 1);
      assert Zeros(k)[..k - 1] == Zeros(k - 1);
    }
  }

  /** A string of k digits denotes less than 10^k. */
  lemma {:induction false} DigitsBound(s: string)
    requires AllDigits(s)
    ensures DigitsValue(s) < Pow(10, |s|)
  {
    if s != [] {
      DigitsBound(s[..|s| - 1]);
    }
  }

  /** Appending k zeros multiplies by 10^k. */
  lemma {:induction false} ShiftByZeros(s: string, k: nat)
    requires AllDigits(s)
    ensures AllDigits(s + Zeros(k))
    ensures DigitsValue(s + Zeros(k)) == DigitsValue(s) * Pow(10, k)
  {
    ZerosValue(k);
    DigitsAppend(s, Zeros(k));
  }

  /** Leading zeros do not change the value. */
  lemma {:induction false} LeadingZeros(k: nat, s: string)
    requires AllDigits(s)
    ensures AllDigits(Zeros(k) + s)
    ensures DigitsValue(Zeros(k) + s) == DigitsValue(s)
  {
    ZerosValue(k);
    DigitsAppend(Zeros(k), s);
  }

  /** Dropping the last k digits divides by 10^k, truncating. */
  lemma {:induction false} DropDigits(s: string, k: nat)
    requires AllDigits(s) && k <= |s|
    ensures DigitsValue(s[..|s| - k]) == DigitsValue(s) / Pow(10, k)
  {
    var a, b := s[..|s| - k], s[|s| - k..];
    assert s == a + b;
    DigitsAppend(a, b);
    DigitsBound(b);
    PowPositive(10, k);
    DivQuotient(DigitsValue(a), Pow(10, k), DigitsValue(b));
  }

  lemma {:induction false} DivQuotient(q: int, d: int, r: int)
    requires d > 0 && 0 <= r < d
    ensures (q * d + r) / d == q
  {
    var n := q * d + r;
    var x, y := n / d, n % d;
    assert n == x * d + y;
    if x < q {
      assert (q - x) * d == y - r;
      MulAtLeast(q - x, d);
    } else if x > q {
      assert (x - q) * d == r - y;
      MulAtLeast(x - q, d);
    }
  }

  /** A canonical digit string is what NatToDigits gives for its value. */
  lemma {:induction false} CanonicalDigits(s: string)
    requires AllDigits(s) && |s| >= 1 && (s[0] == '0' ==> |s| == 1)
    ensures NatToDigits(DigitsValue(s)) == s
  {
    var v := DigitsValue(s);
    if |s| == 1 {
      assert s[..0] == [];
      assert DigitsValue(s[..0]) == 0;
      assert v == DigitValue(s[0]);
      assert DigitChar(v) == s[0];
    } else {
      var h := s[..|s| - 1];
      assert h[0] == s[0];
      CanonicalDigits(h);
      var hv := DigitsValue(h);
      assert v / 10 == hv && v % 10 == DigitValue(s[|s| - 1]);
      assert s == h + [s[|s| - 1]];
    }
  }

  /** The white space BigInteger.Parse skips before and after the number. */
  function TrimStartWhite(s: string): (r: string)
    ensures r == [] || !IsWhite(r[0])
    ensures |r| <= |s|
  {
    if s != [] && IsWhite(s[0]) then TrimStartWhite(s[1..]) else s
  }

  function TrimEndWhite(s: string): (r: string)
    ensures |r| <= |s|
    ensures r == [] || !IsWhite(r[|r| - 1])
  {
    if s != [] && IsWhite(s[|s| - 1]) then TrimEndWhite(s[..|s| - 1]) else s
  }

  /** A sign-and-digits text, with nothing around it. */
  function ParseSigned(t: string): (r: Result<int>)
    ensures r.Err? ==> r.error == FormatError
  {
    if |t| > 0 && (t[0] == '-' || t[0] == '+') then
      if |t| > 1 && AllDigits(t[1..]) then
        var m: int := DigitsValue(t[1..]);
        Ok(if t[0] == '-' then -m else m)
      else Err(FormatError)
    else if |t| > 0 && AllDigits(t) then Ok(DigitsValue(t))
    else Err(FormatError)
  }

  /** BigInteger.Parse (and TryParse) with NumberStyles.Integer: optional
      leading and trailing white space, an optional sign, at least one digit. */
  function ParseInteger(s: string): (r: Result<int>)
    ensures r.Err? ==> r.error == FormatError
  {
    ParseSigned(TrimEndWhite(TrimStartWhite(s)))
  }

  /** int.Parse (and int.TryParse): as BigInteger.Parse, but the value must fit
      in 32 bits. */
  function ParseInt32(s: string): (r: Result<int>)
    ensures r.Ok? ==> INT32_MIN <= r.value <= INT32_MAX
    ensures r.Ok? ==> ParseInteger(s) == r
    ensures r.Err? ==> (ParseInteger(s).Err? && r.error == FormatError) || (ParseInteger(s).Ok? && r.error == OverflowError)
  {
    match ParseInteger(s)
    case Err(e) => Err(e)
    case Ok(v) => if INT32_MIN <= v <= INT32_MAX then Ok(v) else Err(OverflowError)
  }

  /** A text without white space at either end parses as its sign and digits. */
  lemma {:induction false} ParseNoWhite(t: string)
    requires t != [] && !IsWhite(t[0]) && !IsWhite(t[|t| - 1])
    ensures ParseInteger(t) == ParseSigned(t)
  {}

  /** An optional '-' and a non-empty run of digits parse as their value. */
  lemma {:induction false} ParseSignedDigits(neg: bool, d: string)
    requires AllDigits(d) && d != []
    ensures ParseInteger((if neg then "-" else "") + d) == Ok(Signed(neg, DigitsValue(d)))
  {
    var t := (if neg then "-" else "") + d;
    assert t[|t| - 1] == d[|d| - 1];
    ParseNoWhite(t);
    SignedDigitsText(neg, d);
  }

  lemma {:induction false} SignedDigitsText(neg: bool, d: string)
    requires AllDigits(d) && d != []
    ensures ParseSigned((if neg then "-" else "") + d) == Ok(Signed(neg, DigitsValue(d)))
  {
    var t := (if neg then "-" else "") + d;
    if neg {
      assert t[1..] == d;
    } else {
      assert t == d;
    }
  }

  function Signed(neg: bool, m: int): int { if neg then -m else m }

  lemma {:induction false} SignedMul(neg: bool, m: int, q: int)
    ensures Signed(neg, m) * q == Signed(neg, m * q)
  {}

  /** BigInteger.Parse reads back what BigInteger.ToString wrote. */
  lemma {:induction false} ParseIntToString(z: int)
    ensures ParseInteger(IntToString(z)) == Ok(z)
  {
    SignedText(z);
    DigitsRoundTrip(Abs(z));
    ParseSignedDigits(z < 0, NatToDigits(Abs(z)));
  }

  /** BigInteger.ToString's text: a '-' for negatives, then the digits of |z|. */
  lemma {:induction false} SignedText(z: int)
    ensures IntToString(z) == (if z < 0 then "-" else "") + NatToDigits(Abs(z))
  {
    if z >= 0 { assert "" + NatToDigits(z) == NatToDigits(z); }
  }

  lemma {:induction false} QuotientNat(x: nat, y: nat)
    requires y > 0
    ensures x / y >= 0
  {}

  /** BigInteger division: the quotient truncated toward zero. */
  function TruncDiv(a: int, b: int): (q: int)
    requires b != 0
    ensures Abs(q) == Abs(a) / Abs(b)
    ensures q == 0 || ((q < 0) <==> ((a < 0) != (b < 0)))
  {
    var m := Abs(a) / Abs(b);
    QuotientNat(Abs(a), Abs(b));
    if (a < 0) == (b < 0) then m else -m
  }

  /** Its remainder has the dividend's sign and is smaller than the divisor. */
  lemma {:induction false} TruncDivRemainder(a: int, b: int)
    requires b != 0
    ensures Abs(a - TruncDiv(a, b) * b) < Abs(b)
    ensures a - TruncDiv(a, b) * b == 0 || ((a - TruncDiv(a, b) * b < 0) <==> (a < 0))
  {
    var q, m := Abs(a) / Abs(b), Abs(a) % Abs(b);
    assert Abs(a) == q * Abs(b) + m;
    if a >= 0 && b > 0 {
      assert a - TruncDiv(a, b) * b == m;
    } else if a >= 0 && b < 0 {
      assert TruncDiv(a, b) * b == q * Abs(b);
    } else if a < 0 && b > 0 {
      assert TruncDiv(a, b) * b == -(q * Abs(b));
    } else {
      assert TruncDiv(a, b) * b == -(q * Abs(b));
    }
  }
}
