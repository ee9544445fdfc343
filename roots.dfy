/** The three Newton root solvers (BigIntNthRoot, BigIntSquareRoot,
    BigIntCubeRoot) as loops proved against the iteration in `Newton`, and the
    pure logic of the Root, SquareRoot and CubeRoot commands around them:
    degree validation, the imaginary flag, scaling by 10^(p·n), the split into
    an integer part and a p-digit fraction, and the sign of odd roots. */
module Roots {
  import opened Results
  import opened Text
  import opened Digits
  import opened Newton
  import ScaledDecimal

  /** Fractional digits of every root command. */
  const PRECISION: nat := 500

  // The solvers

  /** BigIntNthRoot's result: 0 for A = 0, A itself for n = 1, otherwise the
      Newton loop from max(1, A / n). */
  function NthRootOf(A: nat, n: nat): (x: nat)
    requires n >= 1 && (A == 0 || Converges(A, n))
    ensures A == 0 ==> x == 0
    ensures n == 1 ==> x == A
    ensures A >= 1 ==> x >= 1 && FloorRoot(A, n) <= x
    ensures A >= 1 && n >= 2 ==> exists p :: p >= 1 && x == Step(A, n, p) && Abs(x - p) <= 1
  {
    if A == 0 then 0
    else if n == 1 then
      FirstPower(FloorRoot(A, 1));
      FirstPower(FloorRoot(A, 1) + 1);
      A
    else Solve(A, n, if A / n < 1 then 1 else A / n)
  }

  lemma {:induction false} FirstPower(b: int)
    ensures Pow(b, 1) == b
  {}

  /** BigIntNthRoot (the only caller passes a non-negative A and n >= 1). */
  method BigIntNthRoot(A: nat, n: nat) returns (x: nat)
    requires n >= 1 && (A == 0 || Converges(A, n))
    ensures x == NthRootOf(A, n)
  {
    if A == 0 {
      return 0;
    }
    if n == 1 {
      return A;
    }
    x := A / n;
    if x < 1 {
      x := 1;
    }
    var lastX := x;
    FirstInv(A, n, x);
    x := Step(A, n, x);
    ghost var root := Iterate(A, n, lastX, x);
    assert root == NthRootOf(A, n);
    while Abs(x as int - lastX) > 1
      invariant Inv(A, n, lastX, x)
      invariant Iterate(A, n, lastX, x) == root
      decreases Phase(A, n, lastX, x), x
    {
      NextInv(A, n, lastX, x);
      lastX := x;
      x := Step(A, n, x);
    }
  }

  /** The length of BigInteger.ToByteArray for a non-negative value: the
      shortest two's-complement form, whose top bit is the sign bit. */
  function ByteLength(v: nat): (k: nat)
    ensures k >= 1 && v < Pow(2, 8 * k - 1)
    ensures k == 1 || Pow(2, 8 * k - 9) <= v
  {
    if v < 128 then
      assert Pow(2, 7) == 128;
      1
    else
      var k := ByteLength(v / 256);
      assert Pow(2, 8) == 256 && Pow(2, 7) == 128;
      PowAdd(2, 8, 8 * k - 1);
      PowAdd(2, 8, if k >= 2 then 8 * k - 9 else 0);
      1 + k
  }

  /** BigIntSquareRoot's starting guess n >> (4·bytes), or n / 2 when that is 0. */
  function SquareGuess(N: nat): (g: nat)
    requires N >= 2
    ensures g >= 1
  {
    var x := N / Pow(2, ByteLength(N) * 4);
    if x < 1 then N / 2 else x
  }

  /** BigIntSquareRoot's result. */
  function SquareRootOf(N: int): (r: Result<nat>)
    ensures r.Err? <==> N < 0
    ensures r.Err? ==> r.error == NegativeArgument
    ensures 0 <= N < 2 ==> r == Ok(N)
    ensures N >= 2 ==> r.value >= 1 && FloorRoot(N, 2) <= r.value
    ensures N >= 2 ==> exists q :: q >= 1 && r.value == Step(N, 2, q) && Abs(r.value - q) <= 1
  {
    if N < 0 then Err(NegativeArgument)
    else if N < 2 then Ok(N)
    else Ok(Solve(N, 2, SquareGuess(N)))
  }

  lemma {:induction false} SquareStep(N: nat, x: nat)
    requires x >= 1
    ensures Step(N, 2, x) == (x + N / x) / 2
  {
    FirstPower(x);
  }

  /** BigIntSquareRoot: throws for a negative argument, returns 0 and 1
      unchanged, and otherwise runs (x + n/x) >> 1 to the stopping rule. */
  method BigIntSquareRoot(N: int) returns (r: Result<nat>)
    ensures r == SquareRootOf(N)
  {
    if N < 0 {
      return Err(NegativeArgument);
    }
    if N < 2 {
      return Ok(N);
    }
    var x: nat := N / Pow(2, ByteLength(N) * 4);
    if x < 1 {
      x := N / 2;
    }
    var lastX := x;
    FirstInv(N, 2, x);
    x := Step(N, 2, x);
    ghost var root := Iterate(N, 2, lastX, x);
    assert root == SquareRootOf(N).value;
    while Abs(x as int - lastX) > 1
      invariant Inv(N, 2, lastX, x)
      invariant Iterate(N, 2, lastX, x) == root
      decreases Phase(N, 2, lastX, x), x
    {
      NextInv(N, 2, lastX, x);
      lastX := x;
      x := Step(N, 2, x);
    }
    return Ok(x);
  }

  /** BigIntCubeRoot's starting guess |n| >> (2·bytes), or |n| when that is 0. */
  function CubeGuess(m: nat): (g: nat)
    requires m >= 1
    ensures g >= 1
  {
    var x := m / Pow(2, ByteLength(m) * 2);
    if x < 1 then m else x
  }

  /** BigIntCubeRoot's result: the loop runs on |n| and the sign is put back. */
  function CubeRootOf(N: int): (x: int)
    ensures (x < 0) <==> (N < 0)
    ensures N == 0 <==> x == 0
    ensures N != 0 ==> FloorRoot(Abs(N), 3) <= Abs(x)
    ensures N != 0 ==> exists p :: p >= 1 && Abs(x) == Step(Abs(N), 3, p) && Abs(Abs(x) - p) <= 1
  {
    if N == 0 then 0
    else
      var m: int := CubeMagnitude(Abs(N));
      if N < 0 then -m else m
  }

  /** The cube-root loop on a positive magnitude. */
  function CubeMagnitude(m: nat): (x: nat)
    requires m >= 1
    ensures x >= 1 && FloorRoot(m, 3) <= x
    ensures exists p :: p >= 1 && x == Step(m, 3, p) && Abs(x - p) <= 1
  {
    Solve(m, 3, CubeGuess(m))
  }

  lemma {:induction false} CubeStep(m: nat, x: nat)
    requires x >= 1
    ensures Step(m, 3, x) == (2 * x + m / (x * x)) / 3
  {
    FirstPower(x);
    assert Pow(x, 2) == x * x;
  }

  /** BigIntCubeRoot: 0 stays 0; otherwise the loop runs on |n| and the
      sign of n is put back. */
  method BigIntCubeRoot(N: int) returns (r: int)
    ensures r == CubeRootOf(N)
  {
    if N == 0 {
      return 0;
    }
    var x := CubeLoop(Abs(N));
    r := x;
    if N < 0 {
      r := -r;
    }
  }

  /** BigIntCubeRoot's guess and do-while loop on the magnitude |n| >= 1. */
  method CubeLoop(absN: nat) returns (x: nat)
    requires absN >= 1
    ensures x == CubeMagnitude(absN)
  {
    x := absN / Pow(2, ByteLength(absN) * 2);
    if x < 1 {
      x := absN;
    }
    var lastX := x;
    FirstInv(absN, 3, x);
    x := Step(absN, 3, x);
    ghost var root := Iterate(absN, 3, lastX, x);
    assert root == CubeMagnitude(absN);
    while Abs(x as int - lastX) > 1
      invariant Inv(absN, 3, lastX, x)
      invariant Iterate(absN, 3, lastX, x) == root
      decreases Phase(absN, 3, lastX, x), x
    {
      NextInv(absN, 3, lastX, x);
      lastX := x;
      x := Step(absN, 3, x);
    }
  }

  // Properties of the solvers

  /** The cube root is odd: negating the argument negates the result. */
  lemma {:induction false} CubeRootOdd(N: int)
    ensures CubeRootOf(-N) == -CubeRootOf(N)
  {
    assert Abs(-N) == Abs(N);
  }

  /** The square-root loop ends on the floor root or one above it. */
  lemma {:induction false} SquareRootWithinOne(N: nat)
    ensures SquareRootOf(N).Ok?
    ensures FloorRoot(N, 2) <= SquareRootOf(N).value <= FloorRoot(N, 2) + 1
  {
    var r := FloorRoot(N, 2);
    if N < 2 {
      FirstPower(N);
      FirstPower(N + 1);
      assert Pow(N, 2) == N * N;
      assert Pow(N + 1, 2) == (N + 1) * (N + 1);
      RootAtLeast(N, 2, N);
      if r > N {
        PowMonotone(N + 1, r, 2);
      }
    } else {
      var y := SquareRootOf(N).value;
      var p :| p >= 1 && y == Step(N, 2, p) && Abs(y - p) <= 1;
      if y >= r + 2 {
        SquareOvershoot(N, r, p);
      }
    }
  }

  /** A square-root step from p >= r + 1 that ends at least two above the
      floor root r moves by more than one. */
  lemma {:induction false} SquareOvershoot(N: nat, r: nat, p: nat)
    requires Pow(r + 1, 2) > N && p >= r + 1
    requires Step(N, 2, p) >= r + 2
    ensures Abs(Step(N, 2, p) - p) > 1
  {
    var y := Step(N, 2, p);
    PowMonotone(r + 1, p, 2);
    StepDescends(N, 2, p);
    if y == p - 1 {
      SquareStep(N, p);
      assert Pow(r + 1, 2) == (r + 1) * (r + 1) by { FirstPower(r + 1); }
      assert N < (p - 2) * (p - 2) by {
        assert r + 1 <= p - 2;
        MulMonotone(r + 1, r + 1, p - 2, p - 2);
      }
      assert (p - 2) * (p - 2) <= p * (p - 2);
      QuotientBelow(N, p, p - 2);
    }
  }

  /** The stopping rule does not give the floor root in general: both the
      general and the square-root solver return 2 for 3, whose floor square
      root is 1. */
  lemma {:induction false} OffByOne()
    ensures NthRootOf(3, 2) == 2 && SquareRootOf(3) == Ok(2)
    ensures FloorRoot(3, 2) == 1
  {
    FirstPower(1);
    FirstPower(2);
    assert Pow(2, 2) == 4;
    assert Pow(1, 2) == 1;
    RootAtLeast(3, 2, 1);
    assert Step(3, 2, 1) == 2;
    assert ByteLength(3) == 1;
    assert 3 / Pow(2, 4) == 0;
  }

  // The commands around the solvers

  /** The decimal text of the scaled root, split p digits from the right.
      The Root and SquareRoot commands pad to p + 1 digits only when the
      text is at most p long, CubeRoot pads unconditionally; as PadLeft
      leaves longer text alone, both are this split. */
  function FixedPoint(root: nat, p: nat): (parts: (string, string))
  {
    var t := PadLeft(NatToDigits(root), p + 1, '0');
    (t[..|t| - p], t[|t| - p..])
  }

  /** root / 10^p, the integer part of the scaled root. */
  function Whole(root: nat, p: nat): nat
  {
    QuotientNat(root, Pow(10, p));
    root / Pow(10, p)
  }

  /** root mod 10^p, the fraction digits of the scaled root. */
  function Fraction(root: nat, p: nat): nat
  {
    root % Pow(10, p)
  }

  /** The integer part is root / 10^p written without leading zeros and the
      fraction is root mod 10^p written with exactly p digits. */
  lemma {:induction false} FixedPointValue(root: nat, p: nat)
    ensures |FixedPoint(root, p).1| == p && AllDigits(FixedPoint(root, p).1)
    ensures FixedPoint(root, p).0 == NatToDigits(Whole(root, p))
    ensures DigitsValue(FixedPoint(root, p).1) == Fraction(root, p)
  {
    var t := PaddedText(root, p);
    SplitHigh(t, p);
    SplitLow(t, p);
  }

  /** The digits left of the last p of a padded text: the value divided by
      10^p, in canonical form. */
  lemma {:induction false} SplitHigh(t: string, p: nat)
    requires AllDigits(t) && |t| >= p + 1 && (t[0] == '0' ==> |t| == p + 1)
    ensures t[..|t| - p] == NatToDigits(DigitsValue(t) / Pow(10, p))
  {
    var hi := t[..|t| - p];
    assert AllDigits(hi) by {
      assert forall i | 0 <= i < |hi| :: hi[i] == t[i];
    }
    DropDigits(t, p);
    assert hi[0] == t[0];
    CanonicalDigits(hi);
  }

  /** The last p digits of a text: the value mod 10^p. */
  lemma {:induction false} SplitLow(t: string, p: nat)
    requires AllDigits(t) && |t| >= p
    ensures AllDigits(t[|t| - p..])
    ensures DigitsValue(t[|t| - p..]) == DigitsValue(t) % Pow(10, p)
  {
    var hi, lo := t[..|t| - p], t[|t| - p..];
    assert t == hi + lo;
    assert AllDigits(hi) && AllDigits(lo) by {
      assert forall i | 0 <= i < |hi| :: hi[i] == t[i];
      assert forall i | 0 <= i < |lo| :: lo[i] == t[|t| - p + i];
    }
    DigitsAppend(hi, lo);
    DigitsBound(lo);
    PowPositive(10, p);
    Remainder(DigitsValue(hi), Pow(10, p), DigitsValue(lo));
  }

  /** The padded decimal text of root: all digits, worth root, at least
      p + 1 long, and starting with '0' only when exactly p + 1 long. */
  lemma {:induction false} PaddedText(root: nat, p: nat) returns (t: string)
    ensures t == PadLeft(NatToDigits(root), p + 1, '0')
    ensures |t| >= p + 1 && AllDigits(t) && DigitsValue(t) == root
    ensures t[0] == '0' ==> |t| == p + 1
  {
    t := PadLeft(NatToDigits(root), p + 1, '0');
    ScaledDecimal.PadSplit(NatToDigits(root), t, p);
    DigitsRoundTrip(root);
  }

  lemma {:induction false} Remainder(q: int, d: int, r: int)
    requires d > 0 && 0 <= r < d
    ensures (q * d + r) % d == r
  {
    DivQuotient(q, d, r);
  }

  /** The result of a root command: the signed integer part, the p-digit
      fraction, and whether the result is tagged imaginary. */
  datatype RootText = RootText(integerPart: string, decimalPart: string, imaginary: bool)

  /** The scaled radicand covers the degree: once 2n - 2 <= 10^p, every
      non-zero |A|·10^(p·n) meets the stopping condition. */
  lemma {:induction false} ScaledConverges(m: nat, n: nat, p: nat)
    requires n >= 1 && 2 * n - 2 <= Pow(10, p)
    ensures m * Pow(10, p * n) == 0 || Converges(m * Pow(10, p * n), n)
  {
    if m >= 1 && n > 3 {
      PowMonotone(2 * n - 2, Pow(10, p), n);
      PowMul(10, p, n);
      PowPositive(10, p * n);
      MulAtLeast(m, Pow(10, p * n));
    }
  }

  /** The Root command's arithmetic at precision p for a parsed A and n >= 1:
      |A|·10^(p·n) is rooted, split, and given a '-' for an odd root of a
      negative A; an even root of a negative A is tagged imaginary. */
  function RootAt(A: int, n: nat, p: nat): (t: RootText)
    requires n >= 1 && 2 * n - 2 <= Pow(10, p)
    ensures t.imaginary <==> A < 0 && n % 2 == 0
    ensures t.integerPart == (if A < 0 && n % 2 != 0 then "-" else "") + NatToDigits(Whole(ScaledRoot(A, n, p), p))
    ensures |t.decimalPart| == p && AllDigits(t.decimalPart) && DigitsValue(t.decimalPart) == Fraction(ScaledRoot(A, n, p), p)
  {
    var parts := FixedPoint(ScaledRoot(A, n, p), p);
    FixedPointValue(ScaledRoot(A, n, p), p);
    RootText((if A < 0 && n % 2 != 0 then "-" else "") + parts.0, parts.1, A < 0 && n % 2 == 0)
  }

  /** BigIntNthRoot of |A|·10^(p·n). */
  function ScaledRoot(A: int, n: nat, p: nat): (x: nat)
    requires n >= 1 && 2 * n - 2 <= Pow(10, p)
    ensures A != 0 ==> FloorRoot(Abs(A) * Pow(10, p * n), n) <= x
    ensures A != 0 && n >= 2 ==> exists q :: q >= 1 && x == Step(Abs(A) * Pow(10, p * n), n, q) && Abs(x - q) <= 1
    ensures n == 1 ==> x == Abs(A) * Pow(10, p)
  {
    ScaledConverges(Abs(A), n, p);
    PowPositive(10, p * n);
    NthRootOf(Abs(A) * Pow(10, p * n), n)
  }

  /** 10^500 exceeds 2n - 2 for every 32-bit degree. */
  lemma {:induction false} PrecisionCoversDegree(n: nat)
    requires n <= INT32_MAX
    ensures 2 * n - 2 <= Pow(10, PRECISION)
  {
    assert Pow(10, 10) == 10000000000;
    PowAdd(10, 10, PRECISION - 10);
    PowPositive(10, PRECISION - 10);
    MulAtLeast(Pow(10, PRECISION - 10), Pow(10, 10));
  }

  /** The Root command: both inputs must parse (A as a BigInteger, n as an
      int) and n must be positive; otherwise the command reports invalid
      input before any big-integer work. */
  function Root(inputA: string, inputN: string): (r: Result<RootText>)
    ensures r.Ok? <==> ParseInteger(inputA).Ok? && ParseInt32(inputN).Ok? && ParseInt32(inputN).value > 0
    ensures r.Err? ==> r.error == InvalidInput
  {
    match (ParseInteger(inputA), ParseInt32(inputN))
    case (Ok(a), Ok(n)) =>
      if n <= 0 then Err(InvalidInput)
      else
        PrecisionCoversDegree(n);
        Ok(RootAt(a, n, PRECISION))
    case _ => Err(InvalidInput)
  }

  /** The SquareRoot command's arithmetic at precision p: a negative input
      is rooted by magnitude and tagged imaginary. */
  function SquareRootAt(number: int, p: nat): (t: RootText)
    ensures t.imaginary <==> number < 0
    ensures t.integerPart == NatToDigits(Whole(ScaledSquareRoot(number, p), p))
    ensures |t.decimalPart| == p && AllDigits(t.decimalPart) && DigitsValue(t.decimalPart) == Fraction(ScaledSquareRoot(number, p), p)
  {
    var parts := FixedPoint(ScaledSquareRoot(number, p), p);
    FixedPointValue(ScaledSquareRoot(number, p), p);
    RootText(parts.0, parts.1, number < 0)
  }

  /** BigIntSquareRoot of |number|·10^(2p): never the exception, and the
      floor root or one above it. */
  function ScaledSquareRoot(number: int, p: nat): (x: nat)
    ensures var m := Abs(number) * Pow(10, p * 2);
            FloorRoot(m, 2) <= x <= FloorRoot(m, 2) + 1
    ensures var m := Abs(number) * Pow(10, p * 2);
            m >= 2 ==> exists q :: q >= 1 && x == Step(m, 2, q) && Abs(x - q) <= 1
  {
    PowPositive(10, p * 2);
    SquareRootWithinOne(Abs(number) * Pow(10, p * 2));
    SquareRootOf(Abs(number) * Pow(10, p * 2)).value
  }

  /** The SquareRoot command. */
  function SquareRoot(input: string): (r: Result<RootText>)
    ensures r.Ok? <==> ParseInteger(input).Ok?
    ensures r.Err? ==> r.error == InvalidInput
  {
    match ParseInteger(input)
    case Ok(number) => Ok(SquareRootAt(number, PRECISION))
    case Err(_) => Err(InvalidInput)
  }

  /** The CubeRoot command's real-root arithmetic at precision p: the
      magnitude is rooted and a negative input gets a leading '-'. */
  function CubeRootAt(number: int, p: nat): (t: RootText)
    ensures !t.imaginary
    ensures t.integerPart == (if number < 0 then "-" else "") + NatToDigits(Whole(ScaledCubeRoot(number, p), p))
    ensures |t.decimalPart| == p && AllDigits(t.decimalPart) && DigitsValue(t.decimalPart) == Fraction(ScaledCubeRoot(number, p), p)
  {
    var parts := FixedPoint(ScaledCubeRoot(number, p), p);
    FixedPointValue(ScaledCubeRoot(number, p), p);
    RootText((if number < 0 then "-" else "") + parts.0, parts.1, false)
  }

  /** BigIntCubeRoot of |number|·10^(3p). */
  function ScaledCubeRoot(number: int, p: nat): (x: nat)
    ensures number != 0 ==> FloorRoot(Abs(number) * Pow(10, p * 3), 3) <= x
    ensures number != 0 ==> exists q :: q >= 1 && x == Step(Abs(number) * Pow(10, p * 3), 3, q) && Abs(x - q) <= 1
  {
    var m := Radicand(Abs(number), p * 3);
    var r := CubeRootOf(m);
    assert r >= 0;
    r
  }

  /** A zero radicand gives 0 from every solver: each returns 0 at once,
      before its first Newton step. */
  lemma {:induction false} ZeroRadicand(n: nat, p: nat)
    requires n >= 1 && 2 * n - 2 <= Pow(10, p)
    ensures ScaledRoot(0, n, p) == 0 && ScaledSquareRoot(0, p) == 0 && ScaledCubeRoot(0, p) == 0
  {}

  /** m·10^e, the radicand a command hands to its solver: zero exactly when
      m is. */
  function Radicand(m: nat, e: nat): (s: nat)
    ensures s == m * Pow(10, e)
    ensures s == 0 <==> m == 0
  {
    PowPositive(10, e);
    if m == 0 then 0 else MulAtLeast(m, Pow(10, e)); m * Pow(10, e)
  }

  /** The CubeRoot command in its real-root mode. */
  function CubeRoot(input: string): (r: Result<RootText>)
    ensures r.Ok? <==> ParseInteger(input).Ok?
    ensures r.Err? ==> r.error == InvalidInput
  {
    match ParseInteger(input)
    case Ok(number) => Ok(CubeRootAt(number, PRECISION))
    case Err(_) => Err(InvalidInput)
  }
}
