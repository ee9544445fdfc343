/** The few .NET string operations the engine relies on, over `seq<char>`. */
module Text {

  predicate IsDigit(c: char) { '0' <= c <= '9' }

  predicate AllDigits(s: string) {
    forall i | 0 <= i < |s| :: IsDigit(s[i])
  }

  /** White space that .NET's NumberStyles.Integer accepts around a number:
      U+0009 to U+000D and U+0020. */
  predicate IsWhite(c: char) { c == ' ' || '\t' <= c <= '\r' }

  function Repeat(c: char, k: nat): (r: string)
    ensures |r| == k
  {
    if k == 0 then [] else Repeat(c, k - 1) + [c]
  }

  /** Every character of Repeat(c, k) is c. */
  lemma {:induction false} RepeatFacts(c: char, k: nat)
    ensures forall i | 0 <= i < k :: Repeat(c, k)[i] == c
  {
    if k > 0 {
      RepeatFacts(c, k - 1);
    }
  }

  lemma {:induction false} Assoc(a: string, b: string, c: string)
    ensures a + b + c == a + (b + c)
  {}

  function Zeros(k: nat): string { Repeat('0', k) }

  /** String.IndexOf(char): the first position of `c`, or -1. */
  function IndexOf(s: string, c: char): (i: int)
    ensures -1 <= i < |s|
    ensures 0 <= i ==> s[i] == c
  {
    if s == [] then -1
    else if s[0] == c then 0
    else
      var j := IndexOf(s[1..], c);
      if j == -1 then -1 else j + 1
  }

  /** String.Replace(c, ""): every occurrence of `c` removed. */
  function Remove(s: string, c: char): (r: string)
    ensures |r| <= |s|
  {
    if s == [] then [] else (if s[0] == c then [] else [s[0]]) + Remove(s[1..], c)
  }

  /** IndexOf finds the first occurrence, and -1 exactly when there is none. */
  lemma {:induction false} IndexOfFacts(s: string, c: char)
    ensures IndexOf(s, c) == -1 <==> c !in s
    ensures 0 <= IndexOf(s, c) ==> c !in s[..IndexOf(s, c)]
  {
    if s != [] && s[0] != c {
      IndexOfFacts(s[1..], c);
      assert s == [s[0]] + s[1..];
      var j := IndexOf(s[1..], c);
      if j != -1 {
        assert s[..j + 1] == [s[0]] + s[1..][..j];
      }
    }
  }

  /** A `c` at k with none before it is the one IndexOf finds. */
  lemma {:induction false} FirstAt(s: string, c: char, k: nat)
    requires k < |s| && s[k] == c && c !in s[..k]
    ensures IndexOf(s, c) == k
  {
    if k > 0 {
      assert s[0] == s[..k][0];
      assert s[1..][..k - 1] == s[..k][1..];
      FirstAt(s[1..], c, k - 1);
    }
  }

  /** Remove leaves no `c`, and leaves a text without `c` as it is. */
  lemma {:induction false} RemoveFacts(s: string, c: char)
    ensures c !in Remove(s, c)
    ensures c !in s ==> Remove(s, c) == s
  {
    if s != [] {
      RemoveFacts(s[1..], c);
      assert s == [s[0]] + s[1..];
    }
  }

  lemma {:induction false} RemoveConcat(a: string, b: string, c: char)
    ensures Remove(a + b, c) == Remove(a, c) + Remove(b, c)
  {
    if a == [] {
      assert a + b == b;
    } else {
      var ab := a + b;
      assert ab[0] == a[0];
      assert ab[1..] == a[1..] + b;
      RemoveConcat(a[1..], b, c);
      calc {
        Remove(ab, c);
        (if a[0] == c then [] else [a[0]]) + Remove(a[1..] + b, c);
        (if a[0] == c then [] else [a[0]]) + (Remove(a[1..], c) + Remove(b, c));
        ((if a[0] == c then [] else [a[0]]) + Remove(a[1..], c)) + Remove(b, c);
      }
    }
  }

  /** String.PadLeft(width, c). */
  function PadLeft(s: string, width: nat, c: char): (r: string)
    ensures |r| == if |s| >= width then |s| else width
  {
    if |s| >= width then s else Repeat(c, width - |s|) + s
  }

  /** PadLeft keeps s as its tail and fills the front with c. */
  lemma {:induction false} PadLeftFacts(s: string, width: nat, c: char)
    ensures var r := PadLeft(s, width, c);
            r[|r| - |s|..] == s && forall i | 0 <= i < |r| - |s| :: r[i] == c
  {
    if |s| < width {
      RepeatFacts(c, width - |s|);
      var r := PadLeft(s, width, c);
      assert r[|r| - |s|..] == s;
    }
  }

  /** String.TrimEnd(c): every trailing `c` removed. */
  function TrimEnd(s: string, c: char): (r: string)
    ensures |r| <= |s|
    ensures r == [] || r[|r| - 1] != c
  {
    if s != [] && s[|s| - 1] == c then TrimEnd(s[..|s| - 1], c) else s
  }

  /** TrimEnd keeps a prefix and removes only `c`s. */
  lemma {:induction false} TrimEndFacts(s: string, c: char)
    ensures TrimEnd(s, c) <= s
    ensures forall i | |TrimEnd(s, c)| <= i < |s| :: s[i] == c
  {
    if s != [] && s[|s| - 1] == c {
      TrimEndFacts(s[..|s| - 1], c);
    }
  }

  /** A character other than `c` in front of `b` stops the trim there. */
  lemma {:induction false} TrimEndStops(a: string, b: string, c: char)
    requires a != [] && a[|a| - 1] != c
    ensures TrimEnd(a + b, c) == a + TrimEnd(b, c)
  {
    if b != [] && b[|b| - 1] == c {
      assert (a + b)[..|a + b| - 1] == a + b[..|b| - 1];
      TrimEndStops(a, b[..|b| - 1], c);
    } else if b == [] {
      assert a + b == a;
    }
  }

  /** What TrimEnd removed is a run of `c`. */
  lemma {:induction false} TrimEndSplit(s: string, c: char)
    ensures s == TrimEnd(s, c) + Repeat(c, |s| - |TrimEnd(s, c)|)
  {
    var r := TrimEnd(s, c);
    TrimEndFacts(s, c);
    RepeatFacts(c, |s| - |r|);
    assert s == s[..|r|] + s[|r|..];
  }
}
