/** The engine's binary operator ApplyBigOp (Program.cs:197-255). It
    works in two steps, as the source does: Compute reads both operands as
    scaled integers and does the arithmetic on their magnitudes (lines
    200-240); Emit formats the scaled result (lines 242-254). */
module Operators {
  import opened Results
  import opened Text
  import opened Digits
  import opened ScaledDecimal

  /** The fractional digits of every quotient (Program.cs:229-230). */
  const DIV_PLACES: nat := 500

  function Max(a: int, b: int): int { if a < b then b else a }

  /** The operators ApplyBigOp has a case for. */
  predicate IsOperator(op: char) {
    op == '+' || op == '-' || op == '*' || op == '/' || op == '^'
  }

  /** The exceptions each case can throw: BigInteger.Parse everywhere, the
      zero divisor and BigInteger.Pow's negative exponent for '/', and
      int.Parse plus the negative exponent for '^'. */
  predicate MayFail(op: char, e: Error) {
    e == FormatError ||
    (op == '/' && (e == DivideByZero || e == ArgumentOutOfRange)) ||
    (op == '^' && (e == OverflowError || e == ArgumentOutOfRange))
  }

  /** Steps 1 and 2 of ApplyBigOp(op, s2, s1), which computes s1 op s2:
      the scaled result res / 10^finalP, or the exception thrown on the way.
      An operator without a case leaves res = 0 and finalP = 0. */
  function Compute(op: char, s2: string, s1: string): (r: Result<Scaled>)
    ensures r.Err? ==> IsOperator(op) && MayFail(op, r.error)
    ensures !IsOperator(op) ==> r == Ok(Scaled(0, 0))
  {
    if op == '+' || op == '-' then AddSub(op == '-', s2, s1)
    else if op == '*' then Product(s2, s1)
    else if op == '/' then Quotient(s2, s1)
    else if op == '^' then Power(s2, s1)
    else Ok(Scaled(0, 0))
  }

  /** Lines 211-217: both texts, dots removed, are right-padded with zeros
      to max(p1, p2) places before they are parsed. */
  function AddSub(minus: bool, s2: string, s1: string): (r: Result<Scaled>)
    ensures r.Ok? ==> r.value.places == Max(Places(s1), Places(s2))
    ensures r.Err? ==> r.error == FormatError
  {
    var p1, p2 := Places(s1), Places(s2);
    var fp := Max(p1, p2);
    match ParseInteger(Remove(s1, '.') + Zeros(fp - p1))
    case Err(e) => Err(e)
    case Ok(n1) =>
      match ParseInteger(Remove(s2, '.') + Zeros(fp - p2))
      case Err(e) => Err(e)
      case Ok(n2) => Ok(Scaled(if minus then n1 - n2 else n1 + n2, fp))
  }

  /** Lines 218-223: magnitudes multiply, places add. */
  function Product(s2: string, s1: string): (r: Result<Scaled>)
    ensures r.Ok? ==> r.value.places == Places(s1) + Places(s2)
    ensures r.Err? ==> r.error == FormatError
  {
    match ReadOperand(s1)
    case Err(e) => Err(e)
    case Ok(u) =>
      match ReadOperand(s2)
      case Err(e) => Err(e)
      case Ok(v) => Ok(Scaled(u.mag * v.mag, u.places + v.places))
  }

  /** Lines 224-232: a zero divisor throws before any scaling; then
      BigInteger.Pow(10, 500 + p2 - p1) throws for a negative exponent;
      otherwise the quotient is truncated toward zero at 500 places. */
  function Quotient(s2: string, s1: string): (r: Result<Scaled>)
    ensures r.Ok? ==> r.value.places == DIV_PLACES
    ensures r.Err? ==> MayFail('/', r.error)
  {
    match ReadOperand(s1)
    case Err(e) => Err(e)
    case Ok(u) =>
      match ReadOperand(s2)
      case Err(e) => Err(e)
      case Ok(v) =>
        if v.mag == 0 then Err(DivideByZero)
        else if DIV_PLACES + v.places - u.places < 0 then Err(ArgumentOutOfRange)
        else Ok(Quot(u, v))
  }

  /** n1 * 10^(500 + p2 - p1) / n2, truncated toward zero, at 500 places. */
  function Quot(u: Scaled, v: Scaled): Scaled
    requires v.mag != 0 && u.places <= DIV_PLACES + v.places
  {
    Scaled(TruncDiv(u.mag * Pow(10, DIV_PLACES + v.places - u.places), v.mag), DIV_PLACES)
  }

  /** Lines 233-239: the exponent text goes to int.Parse as it is (dots
      included), BigInteger.Pow throws for a negative exponent, and the
      result has p1 * e places. */
  function Power(s2: string, s1: string): (r: Result<Scaled>)
    ensures r.Err? ==> MayFail('^', r.error)
  {
    match ReadOperand(s1)
    case Err(e) => Err(e)
    case Ok(u) =>
      match ParseInt32(s2)
      case Err(e) => Err(e)
      case Ok(e) =>
        if e < 0 then Err(ArgumentOutOfRange)
        else Ok(Raise(u, e))
  }

  /** BigInteger.Pow(n1, e) with p1 * e places. */
  function Raise(u: Scaled, e: nat): Scaled {
    Scaled(Pow(u.mag, e), u.places * e)
  }

  /** Step 3 (lines 242-254): the shared format step, with the shape of its
      result. */
  function Emit(res: int, p: nat): (r: Result<string>)
    ensures r.Ok? && Canonical(r.value)
    ensures r.value[0] == '-' <==> res < 0
  {
    FormatCanonical(res, p);
    Ok(FormatScaled(res, p))
  }

  /** ApplyBigOp(op, s2, s1) computes s1 op s2: the right operand comes
      first, as the evaluator pops it first. */
  function ApplyBigOp(op: char, s2: string, s1: string): (r: Result<string>)
    ensures r.Ok? ==> Canonical(r.value)
    ensures r.Err? ==> IsOperator(op) && MayFail(op, r.error)
    ensures !IsOperator(op) ==> r == Ok("0")
  {
    FormatZero(0);
    match Compute(op, s2, s1)
    case Err(e) => Err(e)
    case Ok(v) => Emit(v.mag, v.places)
  }

  /** A text ApplyBigOp can read as an operand, and the number it stands for. */
  predicate Readable(s: string) { ReadOperand(s).Ok? }

  function Val(s: string): real
    requires Readable(s)
  {
    Value(ReadOperand(s).value)
  }

  /** The scaled pair v stands for x. */
  predicate HasValue(v: Scaled, x: real) { Value(v) == x }

  /** r is a text that reads back as x. */
  predicate Denotes(r: Result<string>, x: real) {
    r.Ok? && Readable(r.value) && Val(r.value) == x
  }

  /** A formatted result with at most CAP places reads back as its value. */
  lemma {:induction false} EmitExact(res: int, p: nat)
    requires p <= CAP
    ensures Denotes(Emit(res, p), Value(Scaled(res, p)))
  {
    FormatExact(res, p);
  }

  /** Whatever the operator, a computed result with at most CAP places
      comes back from ApplyBigOp as a text that reads as its exact value. */
  lemma {:induction false} ComputeDenotes(op: char, s2: string, s1: string, x: real)
    requires Compute(op, s2, s1).Ok? && Compute(op, s2, s1).value.places <= CAP
    requires HasValue(Compute(op, s2, s1).value, x)
    ensures Denotes(ApplyBigOp(op, s2, s1), x)
  {
    EmitExact(Compute(op, s2, s1).value.mag, Compute(op, s2, s1).value.places);
  }

  /** A literal, dots removed and k zeros appended as AddSub does, parses
      as a magnitude that has the literal's value at k more places. */
  lemma {:induction false} PadRead(s: string, fp: nat) returns (a: int)
    requires Numeral(s) && Places(s) <= fp
    ensures Readable(s)
    ensures ParseInteger(Remove(s, '.') + Zeros(fp - Places(s))) == Ok(a)
    ensures Value(Scaled(a, fp)) == Val(s)
  {
    NumeralReads(s, fp - Places(s));
    a := ReadOperand(s).value.mag * Pow(10, fp - Places(s));
    ShiftedValue(s, fp);
  }

  /** Padding an operand's magnitude with zeros up to fp places keeps its value. */
  lemma {:induction false} ShiftedValue(s: string, fp: nat)
    requires Readable(s) && Places(s) <= fp
    ensures Value(Scaled(ReadOperand(s).value.mag * Pow(10, fp - Places(s)), fp)) == Val(s)
  {
    var v := ReadOperand(s).value;
    assert v.places == Places(s);
    ScaleValue(v.mag, v.places, fp);
  }

  lemma {:induction false} AddSubOf(minus: bool, s1: string, s2: string, a: int, b: int)
    requires ParseInteger(Remove(s1, '.') + Zeros(Max(Places(s1), Places(s2)) - Places(s1))) == Ok(a)
    requires ParseInteger(Remove(s2, '.') + Zeros(Max(Places(s1), Places(s2)) - Places(s2))) == Ok(b)
    ensures AddSub(minus, s2, s1) == Ok(Scaled(if minus then a - b else a + b, Max(Places(s1), Places(s2))))
  {}

  /** '+' on two literals with at most CAP places is exact (lines 211-217). */
  lemma {:induction false} AddExact(s1: string, s2: string)
    requires Numeral(s1) && Numeral(s2) && Max(Places(s1), Places(s2)) <= CAP
    ensures Readable(s1) && Readable(s2)
    ensures Denotes(ApplyBigOp('+', s2, s1), Val(s1) + Val(s2))
  {
    var fp := Max(Places(s1), Places(s2));
    var a := PadRead(s1, fp);
    var b := PadRead(s2, fp);
    AddSubOf(false, s1, s2, a, b);
    ValueAdd(a, b, fp);
    ComputeDenotes('+', s2, s1, Val(s1) + Val(s2));
  }

  /** '-' on two literals with at most CAP places is exact. */
  lemma {:induction false} SubExact(s1: string, s2: string)
    requires Numeral(s1) && Numeral(s2) && Max(Places(s1), Places(s2)) <= CAP
    ensures Readable(s1) && Readable(s2)
    ensures Denotes(ApplyBigOp('-', s2, s1), Val(s1) - Val(s2))
  {
    var fp := Max(Places(s1), Places(s2));
    var a := PadRead(s1, fp);
    var b := PadRead(s2, fp);
    AddSubOf(true, s1, s2, a, b);
    ValueAdd(a, b, fp);
    ComputeDenotes('-', s2, s1, Val(s1) - Val(s2));
  }

  /** '*' multiplies any two readable operands exactly while the places
      add up to at most CAP (lines 218-223). */
  lemma {:induction false} MulExact(s1: string, s2: string)
    requires Readable(s1) && Readable(s2) && Places(s1) + Places(s2) <= CAP
    ensures Denotes(ApplyBigOp('*', s2, s1), Val(s1) * Val(s2))
  {
    MulHas(s1, s2);
    ComputeDenotes('*', s2, s1, Val(s1) * Val(s2));
  }

  lemma {:induction false} MulHas(s1: string, s2: string)
    requires Readable(s1) && Readable(s2)
    ensures Compute('*', s2, s1).Ok? && HasValue(Compute('*', s2, s1).value, Val(s1) * Val(s2))
  {
    ValueMulOf(ReadOperand(s1).value, ReadOperand(s2).value);
  }

  lemma {:induction false} ValueMulOf(u: Scaled, v: Scaled)
    ensures HasValue(Scaled(u.mag * v.mag, u.places + v.places), Value(u) * Value(v))
  {
    ValueMul(u.mag, v.mag, u.places, v.places);
  }

  /** Beyond CAP places, the product is cut toward zero after CAP digits. */
  lemma {:induction false} MulTruncates(s1: string, s2: string)
    requires Readable(s1) && Readable(s2)
    ensures ApplyBigOp('*', s2, s1).Ok?
    ensures ReadTruncates(ReadOperand(ApplyBigOp('*', s2, s1).value),
                          ReadOperand(s1).value.mag * ReadOperand(s2).value.mag, Places(s1) + Places(s2))
  {
    var v := Compute('*', s2, s1).value;
    FormatMeaning(v.mag, v.places);
  }

  /** + and * compute the same result whichever operand comes first, and
      fail together. */
  lemma {:induction false} AddCommutes(s1: string, s2: string)
    ensures ApplyBigOp('+', s2, s1) == ApplyBigOp('+', s1, s2)
  {
    AddSubCommutes(s1, s2);
  }

  lemma {:induction false} AddSubCommutes(s1: string, s2: string)
    ensures AddSub(false, s2, s1) == AddSub(false, s1, s2)
  {
    assert Max(Places(s2), Places(s1)) == Max(Places(s1), Places(s2));
  }

  lemma {:induction false} MulCommutes(s1: string, s2: string)
    ensures ApplyBigOp('*', s2, s1) == ApplyBigOp('*', s1, s2)
  {}

  /** *, / and ^ parse the left operand first, so an unreadable one is
      reported as BigInteger.Parse's FormatException. */
  lemma {:induction false} UnreadableLeft(op: char, s1: string, s2: string)
    requires op == '*' || op == '/' || op == '^'
    requires !Readable(s1)
    ensures ApplyBigOp(op, s2, s1) == Err(FormatError)
  {}

  /** Line 227: a divisor whose magnitude is zero throws before any scaling,
      even when the scaling itself would throw. */
  lemma {:induction false} DivByZero(s1: string, s2: string)
    requires Readable(s1) && Readable(s2) && ReadOperand(s2).value.mag == 0
    ensures ApplyBigOp('/', s2, s1) == Err(DivideByZero)
  {}

  /** Line 229: with more than 500 + p2 places in the dividend the power of
      ten has a negative exponent and BigInteger.Pow throws. */
  lemma {:induction false} DivScaleOutOfRange(s1: string, s2: string)
    requires Readable(s1) && Readable(s2) && ReadOperand(s2).value.mag != 0
    requires Places(s1) > DIV_PLACES + Places(s2)
    ensures ApplyBigOp('/', s2, s1) == Err(ArgumentOutOfRange)
  {}

  function RAbs(x: real): real { if x < 0.0 then -x else x }

  /** q is x / y truncated toward zero after DIV_PLACES fractional digits:
      the remainder x - q * y is smaller than |y| * 10^-500 and is zero or
      has the sign of x. */
  predicate TruncatedQuotient(x: real, y: real, q: real) {
    var rem := x - q * y;
    RAbs(rem) < RAbs(y) * Value(Scaled(1, DIV_PLACES)) &&
    (rem == 0.0 || (rem < 0.0 <==> x < 0.0))
  }

  /** Lines 224-232: '/' of readable operands, the divisor not zero and
      the scaling in range, is the quotient truncated toward zero at 500
      places. */
  lemma {:induction false} DivTruncates(s1: string, s2: string)
    requires Readable(s1) && Readable(s2) && ReadOperand(s2).value.mag != 0
    requires Places(s1) <= DIV_PLACES + Places(s2)
    ensures var r := ApplyBigOp('/', s2, s1);
            r.Ok? && Readable(r.value) && TruncatedQuotient(Val(s1), Val(s2), Val(r.value))
  {
    var u, v := ReadOperand(s1).value, ReadOperand(s2).value;
    DivReal(u, v);
    ComputeDenotes('/', s2, s1, Value(Quot(u, v)));
  }

  /** Quot(u, v) is Value(u) / Value(v) truncated at 500 places. */
  lemma {:induction false} DivReal(u: Scaled, v: Scaled)
    requires v.mag != 0 && u.places <= DIV_PLACES + v.places
    ensures TruncatedQuotient(Value(u), Value(v), Value(Quot(u, v)))
  {
    RemValue(u, v);
    RemFacts(u, v);
    RemainderBound(Rem(u, v), v);
    RemainderSign(Rem(u, v), u);
  }

  /** The remainder of the scaled division, at 500 + p2 places. */
  function Rem(u: Scaled, v: Scaled): Scaled
    requires v.mag != 0 && u.places <= DIV_PLACES + v.places
  {
    var e := DIV_PLACES + v.places;
    Scaled(u.mag * Pow(10, e - u.places) - Quot(u, v).mag * v.mag, e)
  }

  lemma {:induction false} RemValue(u: Scaled, v: Scaled)
    requires v.mag != 0 && u.places <= DIV_PLACES + v.places
    ensures HasValue(Rem(u, v), Value(u) - Value(Quot(u, v)) * Value(v))
  {
    var e := DIV_PLACES + v.places;
    var n := u.mag * Pow(10, e - u.places);
    var q := Quot(u, v).mag;
    ScaleValue(u.mag, u.places, e);
    ValueMul(q, v.mag, DIV_PLACES, v.places);
    ValueAdd(n, q * v.mag, e);
  }

  lemma {:induction false} RemFacts(u: Scaled, v: Scaled)
    requires v.mag != 0 && u.places <= DIV_PLACES + v.places
    ensures Rem(u, v).places == DIV_PLACES + v.places && Abs(Rem(u, v).mag) < Abs(v.mag)
    ensures Rem(u, v).mag == 0 || (Rem(u, v).mag < 0 <==> u.mag < 0)
  {
    var n := u.mag * Pow(10, DIV_PLACES + v.places - u.places);
    TruncDivRemainder(n, v.mag);
    ScaledSign(u.mag, Pow(10, DIV_PLACES + v.places - u.places));
  }

  lemma {:induction false} RemainderBound(r: Scaled, v: Scaled)
    requires r.places == DIV_PLACES + v.places && Abs(r.mag) < Abs(v.mag)
    ensures RAbs(Value(r)) < RAbs(Value(v)) * Value(Scaled(1, DIV_PLACES))
  {
    ValueAbsLess(r.mag, v.mag, r.places);
    ValueMul(v.mag, 1, v.places, DIV_PLACES);
    ValueSign(1, DIV_PLACES);
    RAbsMul(Value(v), Value(Scaled(1, DIV_PLACES)));
  }

  lemma {:induction false} RAbsMul(x: real, d: real)
    requires d > 0.0
    ensures RAbs(x * d) == RAbs(x) * d
  {}

  lemma {:induction false} RemainderSign(r: Scaled, u: Scaled)
    requires r.mag == 0 || (r.mag < 0 <==> u.mag < 0)
    ensures Value(r) == 0.0 || (Value(r) < 0.0 <==> Value(u) < 0.0)
  {
    ValueSign(r.mag, r.places);
    ValueSign(u.mag, u.places);
  }

  lemma {:induction false} ScaledSign(a: int, k: int)
    requires k >= 1
    ensures (a * k < 0 <==> a < 0)
  {}

  /** A value has the sign of its magnitude. */
  lemma {:induction false} ValueSign(m: int, p: nat)
    ensures Value(Scaled(m, p)) < 0.0 <==> m < 0
    ensures Value(Scaled(m, p)) == 0.0 <==> m == 0
  {
    PowPositive(10, p);
  }

  lemma {:induction false} ValueAbsLess(a: int, b: int, p: nat)
    requires Abs(a) < Abs(b)
    ensures RAbs(Value(Scaled(a, p))) < RAbs(Value(Scaled(b, p)))
  {
    PowPositive(10, p);
    var d := Pow(10, p) as real;
    AbsOver(a as real, d);
    AbsOver(b as real, d);
    DivLess(Abs(a) as real, Abs(b) as real, d);
  }

  lemma {:induction false} AbsOver(x: real, d: real)
    requires d > 0.0
    ensures RAbs(x / d) == RAbs(x) / d
  {}

  lemma {:induction false} DivLess(x: real, y: real, d: real)
    requires x < y && d > 0.0
    ensures x / d < y / d
  {}

  /** Lines 233-239: a readable base to a non-negative int exponent is
      exact while p1 * e stays within CAP places. */
  lemma {:induction false} PowExact(s1: string, s2: string, e: nat)
    requires Readable(s1) && ParseInt32(s2) == Ok(e) && Places(s1) * e <= CAP
    ensures Denotes(ApplyBigOp('^', s2, s1), RPow(Val(s1), e))
  {
    ValuePowOf(ReadOperand(s1).value, e);
    ComputeDenotes('^', s2, s1, RPow(Val(s1), e));
  }

  lemma {:induction false} ValuePowOf(u: Scaled, e: nat)
    ensures HasValue(Raise(u, e), RPow(Value(u), e))
  {
    ValuePow(u.mag, u.places, e);
    assert u == Scaled(u.mag, u.places);
  }

  /** Any readable base to the power 0 prints as "1". */
  lemma {:induction false} PowZero(s1: string, s2: string)
    requires Readable(s1) && ParseInt32(s2) == Ok(0)
    ensures ApplyBigOp('^', s2, s1) == Ok("1")
  {
    assert Compute('^', s2, s1) == Ok(Scaled(1, 0));
    FormatInteger(1);
    assert NatToDigits(1) == "1";
  }

  /** BigInteger.Pow throws for a negative exponent. */
  lemma {:induction false} PowNegative(s1: string, s2: string)
    requires Readable(s1) && ParseInt32(s2).Ok? && ParseInt32(s2).value < 0
    ensures ApplyBigOp('^', s2, s1) == Err(ArgumentOutOfRange)
  {}

  /** int.Parse rejects an exponent with a '.' in it, so "2 ^ 2.5" fails. */
  lemma {:induction false} PowFractionRejected(s1: string, s2: string, j: nat)
    requires Readable(s1) && j < |s2| && s2[j] == '.'
    ensures ApplyBigOp('^', s2, s1) == Err(FormatError)
  {
    DotRejected(s2, j);
  }

  /** BigInteger.Parse rejects any text with a '.' in it. */
  lemma {:induction false} DotRejected(s: string, j: nat)
    requires j < |s| && s[j] == '.'
    ensures ParseInteger(s).Err?
  {
    var t := TrimStartWhite(s);
    var i := StaysAfterStart(s, j);
    var k := StaysAfterEnd(t, i);
    SignedRejects(TrimEndWhite(t), k);
  }

  /** A character that is not white space survives TrimStartWhite ... */
  lemma {:induction false} StaysAfterStart(s: string, j: nat) returns (i: nat)
    requires j < |s| && !IsWhite(s[j])
    ensures i < |TrimStartWhite(s)| && TrimStartWhite(s)[i] == s[j]
  {
    if IsWhite(s[0]) {
      i := StaysAfterStart(s[1..], j - 1);
    } else {
      i := j;
    }
  }

  /** ... and TrimEndWhite. */
  lemma {:induction false} StaysAfterEnd(s: string, j: nat) returns (i: nat)
    requires j < |s| && !IsWhite(s[j])
    ensures i < |TrimEndWhite(s)| && TrimEndWhite(s)[i] == s[j]
  {
    if IsWhite(s[|s| - 1]) {
      i := StaysAfterEnd(s[..|s| - 1], j);
    } else {
      i := j;
    }
  }

  lemma {:induction false} SignedRejects(t: string, j: nat)
    requires j < |t| && t[j] == '.'
    ensures ParseSigned(t).Err?
  {
    if j > 0 {
      assert t[1..][j - 1] == '.';
    }
  }

  // ---------------------------------------------------------------------
  // Whole numbers
  // ---------------------------------------------------------------------

  /** An integer's own text reads back as that integer, with no places. */
  lemma {:induction false} IntegerReads(z: int)
    ensures ReadOperand(IntToString(z)) == Ok(Scaled(z, 0))
    ensures Places(IntToString(z)) == 0 && Remove(IntToString(z), '.') == IntToString(z)
  {
    var t := IntToString(z);
    var d := NatToDigits(Abs(z));
    SignedText(z);
    forall k | 0 <= k < |t| ensures t[k] != '.' {
      if z < 0 {
        if k > 0 { assert t[k] == d[k - 1]; }
      } else {
        assert t[k] == d[k];
      }
    }
    RemoveFacts(t, '.');
    IndexOfFacts(t, '.');
    ParseIntToString(z);
  }

  /** The sum of two integer texts is the text of the integer sum. */
  lemma {:induction false} IntegerSum(x: int, y: int)
    ensures ApplyBigOp('+', IntToString(y), IntToString(x)) == Ok(IntToString(x + y))
  {
    IntegerAddSub(false, x, y);
    EmitInteger(x + y);
  }

  /** The difference of two integer texts is the text of the difference. */
  lemma {:induction false} IntegerDifference(x: int, y: int)
    ensures ApplyBigOp('-', IntToString(y), IntToString(x)) == Ok(IntToString(x - y))
  {
    IntegerAddSub(true, x, y);
    EmitInteger(x - y);
  }

  /** The product of two integer texts is the text of the integer product. */
  lemma {:induction false} IntegerProduct(x: int, y: int)
    ensures ApplyBigOp('*', IntToString(y), IntToString(x)) == Ok(IntToString(x * y))
  {
    IntegerReads(x);
    IntegerReads(y);
    assert Compute('*', IntToString(y), IntToString(x)) == Ok(Scaled(x * y, 0));
    EmitInteger(x * y);
  }

  lemma {:induction false} IntegerAddSub(minus: bool, x: int, y: int)
    ensures AddSub(minus, IntToString(y), IntToString(x)) == Ok(Scaled(if minus then x - y else x + y, 0))
  {
    IntegerReads(x);
    IntegerReads(y);
    PaddedInteger(x);
    PaddedInteger(y);
    AddSubOf(minus, IntToString(x), IntToString(y), x, y);
  }

  lemma {:induction false} PaddedInteger(z: int)
    ensures ParseInteger(Remove(IntToString(z), '.') + Zeros(0)) == Ok(z)
  {
    IntegerReads(z);
    assert Zeros(0) == "";
    assert IntToString(z) + "" == IntToString(z);
    ParseIntToString(z);
  }

  /** A non-negative exponent that fits in an int raises an integer text to
      the text of its power. */
  lemma {:induction false} IntegerPower(x: int, e: nat)
    requires e <= INT32_MAX
    ensures ApplyBigOp('^', IntToString(e), IntToString(x)) == Ok(IntToString(Pow(x, e)))
  {
    IntegerReads(x);
    ParseIntToString(e);
    assert Power(IntToString(e), IntToString(x)) == Ok(Raise(Scaled(x, 0), e));
    assert Raise(Scaled(x, 0), e) == Scaled(Pow(x, e), 0);
    assert Compute('^', IntToString(e), IntToString(x)) == Ok(Scaled(Pow(x, e), 0));
    EmitInteger(Pow(x, e));
    assert ApplyBigOp('^', IntToString(e), IntToString(x)) == Emit(Pow(x, e), 0);
  }

  /** A whole result is written as BigInteger.ToString writes it. */
  lemma {:induction false} EmitInteger(r: int)
    ensures Emit(r, 0) == Ok(IntToString(r))
  {
    FormatInteger(r);
  }
}
