/** The integer Newton iteration shared by the three root solvers: the step
    x' = ((n-1)·x + A / x^(n-1)) / n with truncating division, the floor root
    it approaches, and the measure that shows the |x' - x| <= 1 stopping rule
    is reached. */
module Newton {
  import opened Digits

  /** One Newton step towards the n-th root of A. BigIntSquareRoot's
      (x + A/x) >> 1 and BigIntCubeRoot's (2x + A/x²) / 3 are this step for
      n = 2 and n = 3. */
  function Step(A: nat, n: nat, x: nat): nat
    requires n >= 1 && x >= 1
  {
    QuotientNat(A, Pow(x, n - 1));
    ((n - 1) * x + A / Pow(x, n - 1)) / n
  }

  /** The floor of the n-th root of A. */
  ghost function FloorRoot(A: nat, n: nat): (r: nat)
    requires n >= 1
    ensures Pow(r, n) <= A < Pow(r + 1, n)
  {
    assert Pow(0, n) == 0 * Pow(0, n - 1);
    RootFrom(A, n, 0)
  }

  ghost function RootFrom(A: nat, n: nat, k: nat): (r: nat)
    requires n >= 1 && Pow(k, n) <= A
    ensures Pow(r, n) <= A < Pow(r + 1, n)
    decreases A - k
  {
    if A < Pow(k + 1, n) then k
    else
      PowAtLeastBase(k + 1, n);
      RootFrom(A, n, k + 1)
  }

  lemma {:induction false} PowAtLeastBase(b: nat, n: nat)
    requires b >= 1 && n >= 1
    ensures b <= Pow(b, n)
  {
    PowPositive(b, n - 1);
    MulAtLeast(b, Pow(b, n - 1));
  }

  lemma {:induction false} PowOne(n: nat)
    ensures Pow(1, n) == 1
  {
    if n > 0 {
      PowOne(n - 1);
    }
  }

  /** Every b whose n-th power does not exceed A is at most the floor root. */
  lemma {:induction false} RootAtLeast(A: nat, n: nat, b: nat)
    requires n >= 1 && Pow(b, n) <= A
    ensures b <= FloorRoot(A, n)
  {
    var r := FloorRoot(A, n);
    if b > r {
      PowMonotone(r + 1, b, n);
    }
  }

  lemma {:induction false} RootPositive(A: nat, n: nat)
    requires n >= 1 && A >= 1
    ensures FloorRoot(A, n) >= 1
  {
    PowOne(n);
    RootAtLeast(A, n, 1);
  }

  // Integer arithmetic facts

  lemma {:induction false} QuotientAtLeast(a: int, d: int, r: int)
    requires d > 0 && a >= d * r
    ensures a / d >= r
  {
    var q, m := a / d, a % d;
    assert a == d * q + m && 0 <= m < d;
    assert d * (q - r + 1) > 0 by {
      assert d * (q - r + 1) == d * q - d * r + d;
    }
    PositiveFactor(d, q - r + 1);
  }

  lemma {:induction false} PositiveFactor(d: int, t: int)
    requires d > 0 && d * t > 0
    ensures t > 0
  {}

  lemma {:induction false} QuotientBelow(a: int, d: int, x: int)
    requires d > 0 && a < d * x
    ensures a / d < x
  {
    var q := a / d;
    if q >= x {
      assert false;
    }
  }

  /** Cancelling a positive factor: X·a + s >= X·b with 0 <= s < X gives a >= b. */
  lemma {:induction false} CancelFactor(X: int, a: int, b: int, s: int)
    requires X > 0 && 0 <= s < X && X * a + s >= X * b
    ensures a >= b
  {
    assert X * (a - b + 1) > 0 by {
      assert X * (a - b + 1) == X * a - X * b + X;
    }
    PositiveFactor(X, a - b + 1);
  }

  lemma {:induction false} ScaleLeft(c: int, a: int, b: int)
    requires c >= 0 && a >= b
    ensures c * a >= c * b
  {
    assert c * a - c * b == c * (a - b);
  }

  /** The inductive step of the mean inequality, on plain integers. */
  lemma {:induction false} MeanStep(k: int, x: int, r: int, X: int, R: int)
    requires k >= 1 && x >= 0 && r >= 0 && X >= 0
    requires (k - 1) * (x * X) + R >= k * r * X
    ensures k * (x * (x * X)) + r * R >= (k + 1) * r * (x * X)
  {
    ScaleLeft(r, (k - 1) * (x * X) + R, k * r * X);
    var d := x - r;
    assert k * X * (d * d) >= 0 by {
      assert d * d >= 0;
      assert k * X >= 0;
    }
    assert k * (x * (x * X)) + r * R - (k + 1) * r * (x * X)
        == k * X * (d * d) + (r * ((k - 1) * (x * X) + R) - r * (k * r * X));
  }

  /** The arithmetic-geometric mean inequality behind each step:
      (n-1)·x^n + r^n >= n·r·x^(n-1). */
  lemma {:induction false} MeanInequality(x: nat, r: nat, n: nat)
    requires n >= 1
    ensures (n - 1) * Pow(x, n) + Pow(r, n) >= n * r * Pow(x, n - 1)
  {
    if n > 1 {
      var k := n - 1;
      MeanInequality(x, r, k);
      var X := Pow(x, k - 1);
      var R := Pow(r, k);
      PowNonNegative(x, k - 1);
      assert Pow(x, k) == x * X;
      assert Pow(x, n) == x * (x * X);
      assert Pow(r, n) == r * R;
      MeanStep(k, x, r, X, R);
    }
  }

  /** No step lands below a number whose n-th power is at most A; in
      particular every iterate after the first is at least the floor root. */
  lemma {:induction false} StepAtLeast(A: nat, n: nat, x: nat, r: nat)
    requires n >= 1 && x >= 1 && Pow(r, n) <= A
    ensures Step(A, n, x) >= r
  {
    var X := Pow(x, n - 1);
    MeanInequality(x, r, n);
    assert Pow(x, n) == x * X;
    MeanQuotient(n, x, r, X, A / X, A % X);
    QuotientAtLeast((n - 1) * x + A / X, n, r);
  }

  /** The mean inequality survives truncating A / X: on plain integers. */
  lemma {:induction false} MeanQuotient(n: int, x: int, r: int, X: int, q: int, s: int)
    requires X >= 1 && 0 <= s < X
    requires (n - 1) * (x * X) + (X * q + s) >= n * r * X
    ensures (n - 1) * x + q >= n * r
  {
    assert X * ((n - 1) * x + q) + s >= X * (n * r);
    CancelFactor(X, (n - 1) * x + q, n * r, s);
  }

  /** Above the root the iteration strictly descends. */
  lemma {:induction false} StepDescends(A: nat, n: nat, x: nat)
    requires n >= 1 && x >= 1 && A < Pow(x, n)
    ensures Step(A, n, x) < x
  {
    var X := Pow(x, n - 1);
    assert Pow(x, n) == x * X;
    QuotientBelow(A, X, x);
    QuotientBelow((n - 1) * x + A / X, n, x);
  }

  /** The inductive step of the binomial bound, on plain integers. */
  lemma {:induction false} BinomialStep(r: int, k: int, P: int, Q: int)
    requires r >= 2 * k - 2 && k >= 2 && Q >= 0
    requires P <= Q * (r + 2 * k - 2)
    ensures (r + 1) * P <= r * Q * (r + 2 * k)
  {
    ScaleLeft(r + 1, Q * (r + 2 * k - 2), P);
    assert Q * (r - 2 * k + 2) >= 0;
    assert r * Q * (r + 2 * k) - (r + 1) * (Q * (r + 2 * k - 2)) == Q * (r - 2 * k + 2);
  }

  /** (r+1)^k <= r^(k-1)·(r + 2k) once r >= 2k - 2. */
  lemma {:induction false} BinomialBound(r: nat, k: nat)
    requires k >= 1 && r >= 1 && 2 * (k - 1) <= r
    ensures Pow(r + 1, k) <= Pow(r, k - 1) * (r + 2 * k)
  {
    if k > 1 {
      BinomialBound(r, k - 1);
      var P := Pow(r + 1, k - 1);
      var Q := Pow(r, k - 2);
      PowNonNegative(r, k - 2);
      assert Pow(r, k - 1) == r * Q;
      assert Pow(r + 1, k) == (r + 1) * P;
      BinomialStep(r, k, P, Q);
    }
  }

  /** The bound (r+1)^n <= r^(n-1)·(r + 2n) in the cases the solvers meet. */
  lemma {:induction false} NearPower(r: nat, n: nat)
    requires n >= 2 && r >= 1
    requires n == 2 || (n == 3 && r >= 2) || r >= 2 * n - 2
    ensures Pow(r + 1, n) <= Pow(r, n - 1) * (r + 2 * n)
  {
    if n == 2 {
      assert Pow(r + 1, 1) == r + 1;
      assert Pow(r + 1, 2) == (r + 1) * (r + 1);
      assert Pow(r, 1) == r;
    } else if n == 3 && r < 4 {
      assert Pow(r + 1, 1) == r + 1 && Pow(r, 1) == r;
      assert Pow(r + 1, 2) == (r + 1) * (r + 1);
      assert Pow(r + 1, 3) == (r + 1) * ((r + 1) * (r + 1));
      assert Pow(r, 2) == r * r;
      CubeBound(r);
    } else {
      BinomialBound(r, n);
    }
  }

  lemma {:induction false} CubeBound(r: int)
    requires 2 <= r < 4
    ensures (r + 1) * ((r + 1) * (r + 1)) <= r * r * (r + 6)
  {
    if r == 2 {
    } else {
      assert r == 3;
    }
  }

  /** From the floor root the next iterate is at most one above it. */
  lemma {:induction false} NearRoot(A: nat, n: nat, r: nat)
    requires n >= 2 && r >= 1 && A < Pow(r + 1, n)
    requires n == 2 || (n == 3 && r >= 2) || r >= 2 * n - 2
    ensures Step(A, n, r) <= r + 1
  {
    var R := Pow(r, n - 1);
    NearPower(r, n);
    QuotientBelow(A, R, r + 2 * n);
    QuotientBelow((n - 1) * r + A / R, n, r + 2);
  }

  /** A step from two or more above r can only land on r when r >= n - 1. */
  lemma {:induction false} Landing(A: nat, n: nat, x: nat, r: nat)
    requires n >= 2 && x >= r + 2 && Step(A, n, x) <= r
    ensures r >= n - 1
  {
    if r <= n - 2 {
      PowPositive(x, n - 1);
      QuotientNat(A, Pow(x, n - 1));
      assert (n - 1) * x >= (n - 1) * (r + 2);
      assert (n - 1) * (r + 2) - n * (r + 1) == n - r - 2;
      QuotientAtLeast((n - 1) * x + A / Pow(x, n - 1), n, r + 1);
    }
  }

  // Termination of the do-while loops

  /** The condition under which the loop provably stops: degree at most 3,
      or a radicand at least (2n-2)^n, that is a floor root at least 2n-2. */
  predicate Converges(A: nat, n: nat)
  {
    n <= 3 || Pow(2 * n - 2, n) <= A
  }

  /** The loop state after at least one step: x is the step from prev and
      no smaller than the floor root. */
  ghost predicate Inv(A: nat, n: nat, prev: nat, x: nat)
  {
    n >= 2 && A >= 1 && Converges(A, n) && prev >= 1 && x >= 1
    && x == Step(A, n, prev) && FloorRoot(A, n) <= x
  }

  /** 0 once the stopping rule holds, 1 at the floor root, 2 above it. */
  ghost function Phase(A: nat, n: nat, prev: nat, x: nat): nat
    requires n >= 1
  {
    if Abs(x - prev) <= 1 then 0 else if x == FloorRoot(A, n) then 1 else 2
  }

  lemma {:induction false} FirstInv(A: nat, n: nat, x0: nat)
    requires n >= 2 && A >= 1 && Converges(A, n) && x0 >= 1
    ensures Inv(A, n, x0, Step(A, n, x0))
  {
    RootPositive(A, n);
    StepAtLeast(A, n, x0, FloorRoot(A, n));
  }

  /** Sitting on the floor root without having stopped, the next step ends
      the loop. */
  lemma {:induction false} AtRoot(A: nat, n: nat, prev: nat, x: nat)
    requires Inv(A, n, prev, x) && x == FloorRoot(A, n) && Abs(x - prev) > 1
    ensures Step(A, n, x) <= x + 1
  {
    if n == 3 && x < 2 {
      Landing(A, n, prev, x);
    }
    if n > 3 {
      RootAtLeast(A, n, 2 * n - 2);
    }
    NearRoot(A, n, x);
  }

  /** One more iteration keeps the invariant and lowers (Phase, x). */
  lemma {:induction false} NextInv(A: nat, n: nat, prev: nat, x: nat)
    requires Inv(A, n, prev, x) && Abs(x - prev) > 1
    ensures Inv(A, n, x, Step(A, n, x))
    ensures Phase(A, n, x, Step(A, n, x)) < Phase(A, n, prev, x)
         || (Phase(A, n, x, Step(A, n, x)) == Phase(A, n, prev, x) && Step(A, n, x) < x)
  {
    var r := FloorRoot(A, n);
    var y := Step(A, n, x);
    RootPositive(A, n);
    StepAtLeast(A, n, x, r);
    assert Inv(A, n, x, y);
    if x == r {
      AtRoot(A, n, prev, x);
      assert Phase(A, n, x, y) == 0;
    } else {
      PowMonotone(r + 1, x, n);
      StepDescends(A, n, x);
      assert Phase(A, n, prev, x) == 2;
    }
  }

  /** The iteration from (prev, x) run until consecutive iterates differ by
      at most one: it never drops below the floor root, never reaches 0, and
      its result is a step from a number at most one away. */
  function Iterate(A: nat, n: nat, prev: nat, x: nat): (y: nat)
    requires Inv(A, n, prev, x)
    ensures y >= 1 && FloorRoot(A, n) <= y
    ensures exists p :: p >= 1 && y == Step(A, n, p) && Abs(y - p) <= 1
    decreases Phase(A, n, prev, x), x
  {
    if Abs(x - prev) <= 1 then x
    else
      NextInv(A, n, prev, x);
      Iterate(A, n, x, Step(A, n, x))
  }

  /** The whole do-while loop from the starting guess x0. */
  function Solve(A: nat, n: nat, x0: nat): (y: nat)
    requires n >= 2 && A >= 1 && Converges(A, n) && x0 >= 1
    ensures y >= 1 && FloorRoot(A, n) <= y
    ensures exists p :: p >= 1 && y == Step(A, n, p) && Abs(y - p) <= 1
  {
    FirstInv(A, n, x0);
    Iterate(A, n, x0, Step(A, n, x0))
  }
}
