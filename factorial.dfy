/** The Factorial command's arithmetic: the range guard and the accumulating
    loop. */
module Factorials {
  import opened Results
  import opened Digits

  /** The largest n the command accepts. */
  const LIMIT: nat := 100000

  /** n!, defined by its recurrence. */
  function Fact(n: nat): (f: nat)
    ensures f >= 1
  {
    if n == 0 then 1
    else
      var g := Fact(n - 1);
      MulAtLeast(n, g);
      n * g
  }

  /** The Factorial command's arithmetic: an n outside 0..100000 is refused;
      otherwise result starts at 1 and is multiplied by 2, 3, ..., n. */
  method Factorial(n: int) returns (r: Result<nat>)
    ensures 0 <= n <= LIMIT ==> r == Ok(Fact(n))
    ensures !(0 <= n <= LIMIT) ==> r == Err(InvalidInput)
  {
    if n < 0 || n > LIMIT {
      return Err(InvalidInput);
    }
    var result: nat := 1;
    var i: nat := 2;
    assert Fact(1) == 1 * Fact(0);
    while i <= n
      invariant 2 <= i && (i <= n + 1 || i == 2)
      invariant result == Fact(i - 1)
    {
      NextFact(i, result);
      result := result * i;
      i := i + 1;
    }
    r := Ok(result);
  }

  /** One pass of the loop: (i - 1)! times i is i!. */
  lemma {:induction false} NextFact(i: nat, f: nat)
    requires i >= 1 && f == Fact(i - 1)
    ensures f * i == Fact(i)
  {}

  /** Every k in 1..n divides n!. */
  lemma {:induction false} FactDivides(k: nat, n: nat) returns (c: nat)
    requires 1 <= k <= n
    ensures Fact(n) == k * c
    ensures Fact(n) % k == 0
  {
    if k == n {
      c := Fact(n - 1);
    } else {
      var d := FactDivides(k, n - 1);
      c := n * d;
      assert Fact(n) == n * (k * d);
      assert n * (k * d) == k * (n * d);
    }
    MultipleMod(k, c);
  }

  lemma {:induction false} MultipleMod(k: nat, c: nat)
    requires k >= 1
    ensures (k * c) % k == 0
  {
    DivQuotient(c, k, 0);
  }

  /** n! never decreases as n grows. */
  lemma {:induction false} FactMonotone(m: nat, n: nat)
    requires m <= n
    ensures Fact(m) <= Fact(n)
  {
    if m < n {
      FactMonotone(m, n - 1);
      MulAtLeast(n, Fact(n - 1));
    }
  }
}
