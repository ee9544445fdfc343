/** The expression engine Evaluate (Program.cs:142-181) and its operator
    order HasPrecedence (Program.cs:183-195). The text is cleaned and cut
    into tokens; the tokens are read left to right with a stack of values
    and a stack of operators, and every reduction is ApplyBigOp. Stacks are
    sequences whose last element is the top. */
module Evaluator {
  import opened Results
  import opened Text
  import opened Digits
  import opened Operators

  // ---------------------------------------------------------------------
  // Operator order
  // ---------------------------------------------------------------------

  /** GetPriority: '^' binds tightest, then '*' and '/', then '+' and '-';
      any other character has priority 0. */
  function Priority(op: char): (p: nat)
    ensures p <= 3
    ensures IsOperator(op) <==> p > 0
  {
    match op
    case '^' => 3
    case '*' => 2
    case '/' => 2
    case '+' => 1
    case '-' => 1
    case _ => 0
  }

  /** The operator op2 on top of the stack is applied before op1 is pushed
      when it binds at least as tightly. */
  predicate HasPrecedence(op1: char, op2: char) {
    Priority(op2) >= Priority(op1)
  }

  /** The order is a total preorder, so equal levels group to the left. */
  lemma {:induction false} PrecedenceIsPreorder(a: char, b: char, c: char)
    ensures HasPrecedence(a, a)
    ensures HasPrecedence(a, b) || HasPrecedence(b, a)
    ensures HasPrecedence(a, b) && HasPrecedence(b, c) ==> HasPrecedence(a, c)
  {}

  /** Among the five operators: '^' only gives way to '^'; '*' and '/' give
      way to everything but '+' and '-'; '+' and '-' give way to all. */
  lemma {:induction false} OperatorLevels(op: char, top: char)
    requires IsOperator(op) && IsOperator(top)
    ensures op == '^' ==> (HasPrecedence(op, top) <==> top == '^')
    ensures (op == '*' || op == '/') ==> (HasPrecedence(op, top) <==> top != '+' && top != '-')
    ensures (op == '+' || op == '-') ==> HasPrecedence(op, top)
  {}

  // ---------------------------------------------------------------------
  // Cleaning and tokenising (line 144 and line 146)
  // ---------------------------------------------------------------------

  /** String.Replace("**", "^"): occurrences are found left to right and do
      not overlap. */
  function ReplacePower(s: string): (r: string)
    ensures |r| <= |s|
  {
    if |s| >= 2 && s[0] == '*' && s[1] == '*' then "^" + ReplacePower(s[2..])
    else if s == [] then []
    else [s[0]] + ReplacePower(s[1..])
  }

  /** No two '*' side by side. */
  predicate NoDoubleStar(s: string) {
    forall i | 0 <= i < |s| - 1 :: !(s[i] == '*' && s[i + 1] == '*')
  }

  /** Line 144: spaces removed, then "**" written as "^". */
  function Normalize(s: string): string {
    ReplacePower(Remove(s, ' '))
  }

  /** After the replacement no "**" is left and no space is added. */
  lemma {:induction false} ReplacePowerClean(s: string)
    ensures NoDoubleStar(ReplacePower(s))
    ensures ' ' !in s ==> ' ' !in ReplacePower(s)
  {
    var r := ReplacePower(s);
    if |s| >= 2 && s[0] == '*' && s[1] == '*' {
      ReplacePowerClean(s[2..]);
      assert r == "^" + ReplacePower(s[2..]);
      assert ' ' !in s ==> ' ' !in s[2..] by {
        if ' ' in s[2..] { var k :| 0 <= k < |s[2..]| && s[2..][k] == ' '; assert s[k + 2] == ' '; }
      }
    } else if s != [] {
      var t := ReplacePower(s[1..]);
      ReplacePowerClean(s[1..]);
      assert r == [s[0]] + t;
      if s[0] == '*' && t != [] {
        assert t[0] != '*' by { FirstAfterStar(s[1..]); }
      }
      assert ' ' !in s ==> ' ' !in s[1..] by {
        if ' ' in s[1..] { var k :| 0 <= k < |s[1..]| && s[1..][k] == ' '; assert s[k + 1] == ' '; }
      }
    }
  }

  /** What the replacement starts with when the text does not start with "**". */
  lemma {:induction false} FirstAfterStar(t: string)
    requires t == [] || t[0] != '*'
    ensures ReplacePower(t) == [] || ReplacePower(t)[0] != '*'
  {}

  /** Text with no '*' is left alone. */
  lemma {:induction false} ReplacePowerNoStar(s: string)
    requires '*' !in s
    ensures ReplacePower(s) == s
  {
    if s != [] {
      ReplacePowerNoStar(s[1..]);
      assert s == [s[0]] + s[1..];
    }
  }

  /** A prefix without '*' is copied and the rest is replaced on its own. */
  lemma {:induction false} ReplacePowerAppend(x: string, y: string)
    requires '*' !in x
    ensures ReplacePower(x + y) == x + ReplacePower(y)
  {
    if x != [] {
      ReplacePowerAppend(x[1..], y);
      assert (x + y)[1..] == x[1..] + y;
      assert x == [x[0]] + x[1..];
    } else {
      assert x + y == y;
    }
  }

  /** A single character is copied, unless it is a '*' followed by '*'. */
  lemma {:induction false} ReplacePowerOperator(op: char, y: string)
    requires op != '*' || y == [] || y[0] != '*'
    ensures ReplacePower([op] + y) == [op] + ReplacePower(y)
  {
    assert ([op] + y)[1..] == y;
  }

  /** Cleaning is idempotent, and it leaves clean text alone. */
  lemma {:induction false} NormalizeIdempotent(s: string)
    ensures Normalize(Normalize(s)) == Normalize(s)
  {
    var n := Normalize(s);
    RemoveFacts(s, ' ');
    ReplacePowerClean(Remove(s, ' '));
    NormalizeKeeps(n);
  }

  lemma {:induction false} NormalizeKeeps(s: string)
    requires ' ' !in s && NoDoubleStar(s)
    ensures Normalize(s) == s
  {
    RemoveFacts(s, ' ');
    ReplacePowerKeeps(s);
  }

  lemma {:induction false} ReplacePowerKeeps(s: string)
    requires NoDoubleStar(s)
    ensures ReplacePower(s) == s
  {
    if s != [] {
      assert NoDoubleStar(s[1..]) by {
        forall i | 0 <= i < |s[1..]| - 1 ensures !(s[1..][i] == '*' && s[1..][i + 1] == '*') {
          assert s[1..][i] == s[i + 1] && s[1..][i + 1] == s[i + 2];
        }
      }
      ReplacePowerKeeps(s[1..]);
      if |s| >= 2 {
        assert !(s[0] == '*' && s[1] == '*');
      }
      assert s == [s[0]] + s[1..];
    }
  }

  /** The characters the token pattern splits on and keeps. */
  predicate IsDelimiter(c: char) {
    IsOperator(c) || c == '(' || c == ')'
  }

  /** A text with no delimiter in it. */
  predicate Plain(s: string) {
    forall i | 0 <= i < |s| :: !IsDelimiter(s[i])
  }

  /** Regex.Split with a captured one-character class: the pieces between
      delimiters (possibly empty) alternate with the delimiters themselves. */
  function Split(s: string): (r: seq<string>)
    ensures |r| % 2 == 1
  {
    if s == [] then [""]
    else if IsDelimiter(s[0]) then ["", [s[0]]] + Split(s[1..])
    else
      var t := Split(s[1..]);
      [[s[0]] + t[0]] + t[1..]
  }

  /** The pieces written one after another. */
  function Join(ts: seq<string>): string {
    if ts == [] then "" else ts[0] + Join(ts[1..])
  }

  /** The shape Split returns: plain pieces at even positions and single
      delimiters at odd ones. */
  predicate Alternates(ts: seq<string>) {
    |ts| % 2 == 1 &&
    forall i | 0 <= i < |ts| :: if i % 2 == 0 then Plain(ts[i]) else |ts[i]| == 1 && IsDelimiter(ts[i][0])
  }

  lemma {:induction false} JoinCons(x: string, ts: seq<string>)
    ensures Join([x] + ts) == x + Join(ts)
  {
    assert ([x] + ts)[1..] == ts;
  }

  /** Split loses nothing. */
  lemma {:induction false} SplitJoin(s: string)
    ensures Join(Split(s)) == s
  {
    if s == [] {
      assert Join([""]) == "" + Join([]);
    } else {
      SplitJoin(s[1..]);
      assert s == [s[0]] + s[1..];
      if IsDelimiter(s[0]) {
        JoinDelimiter(s[0], Split(s[1..]));
      } else {
        JoinPlain(s[0], Split(s[1..]));
      }
    }
  }

  /** Joining after a delimiter piece is put in front. */
  lemma {:induction false} JoinDelimiter(c: char, t: seq<string>)
    ensures Join(["", [c]] + t) == [c] + Join(t)
  {
    assert ["", [c]] + t == [""] + ([[c]] + t);
    JoinCons("", [[c]] + t);
    JoinCons([c], t);
  }

  /** Joining after a character is glued to the first piece. */
  lemma {:induction false} JoinPlain(c: char, t: seq<string>)
    requires |t| >= 1
    ensures Join([[c] + t[0]] + t[1..]) == [c] + Join(t)
  {
    JoinCons(t[0], t[1..]);
    assert [t[0]] + t[1..] == t;
    JoinCons([c] + t[0], t[1..]);
  }

  /** Split returns the alternating shape. */
  lemma {:induction false} SplitAlternates(s: string)
    ensures Alternates(Split(s))
  {
    if s != [] {
      var t := Split(s[1..]);
      SplitAlternates(s[1..]);
      if IsDelimiter(s[0]) {
        DelimiterFirst(s[0], t);
      } else {
        PlainFirst(s[0], t);
      }
    }
  }

  lemma {:induction false} DelimiterFirst(c: char, t: seq<string>)
    requires IsDelimiter(c) && Alternates(t)
    ensures Alternates(["", [c]] + t)
  {
    var r := ["", [c]] + t;
    forall i | 0 <= i < |r|
      ensures if i % 2 == 0 then Plain(r[i]) else |r[i]| == 1 && IsDelimiter(r[i][0])
    {
      if i >= 2 { assert r[i] == t[i - 2]; }
    }
  }

  lemma {:induction false} PlainFirst(c: char, t: seq<string>)
    requires !IsDelimiter(c) && Alternates(t)
    ensures Alternates([[c] + t[0]] + t[1..])
  {
    var r := [[c] + t[0]] + t[1..];
    forall i | 0 <= i < |r|
      ensures if i % 2 == 0 then Plain(r[i]) else |r[i]| == 1 && IsDelimiter(r[i][0])
    {
      if i == 0 {
        forall k | 0 <= k < |r[0]| ensures !IsDelimiter(r[0][k]) {
          if k > 0 { assert r[0][k] == t[0][k - 1]; }
        }
      } else {
        assert r[i] == t[i];
      }
    }
  }

  /** A plain text is one piece. */
  lemma {:induction false} SplitPlain(s: string)
    requires Plain(s)
    ensures Split(s) == [s]
  {
    if s != [] {
      assert Plain(s[1..]) by {
        forall i | 0 <= i < |s[1..]| ensures !IsDelimiter(s[1..][i]) { assert s[1..][i] == s[i + 1]; }
      }
      SplitPlain(s[1..]);
      assert s == [s[0]] + s[1..];
    }
  }

  /** A plain prefix joins the first piece of what follows. */
  lemma {:induction false} SplitPrefix(run: string, x: string)
    requires Plain(run)
    ensures Split(run + x) == [run + Split(x)[0]] + Split(x)[1..]
  {
    if run == [] {
      assert run + x == x;
      assert run + Split(x)[0] == Split(x)[0];
      assert [Split(x)[0]] + Split(x)[1..] == Split(x);
    } else {
      assert Plain(run[1..]) by {
        forall i | 0 <= i < |run[1..]| ensures !IsDelimiter(run[1..][i]) { assert run[1..][i] == run[i + 1]; }
      }
      SplitPrefix(run[1..], x);
      var t := Split(run[1..] + x);
      assert (run + x)[1..] == run[1..] + x;
      assert (run + x)[0] == run[0] && !IsDelimiter(run[0]);
      assert Split(run + x) == [[run[0]] + t[0]] + t[1..];
      assert t[0] == run[1..] + Split(x)[0] && t[1..] == Split(x)[1..];
      assert [run[0]] + (run[1..] + Split(x)[0]) == run + Split(x)[0];
    }
  }

  /** Splitting the joined pieces of the alternating shape gives them back. */
  lemma {:induction false} JoinSplit(ts: seq<string>)
    requires Alternates(ts)
    ensures Split(Join(ts)) == ts
    decreases |ts|
  {
    if |ts| == 1 {
      assert ts[0] + Join([]) == ts[0];
      JoinCons(ts[0], []);
      assert ts == [ts[0]] + [];
      SplitPlain(ts[0]);
    } else {
      var rest := ts[2..];
      assert Alternates(rest) by {
        forall i | 0 <= i < |rest|
          ensures if i % 2 == 0 then Plain(rest[i]) else |rest[i]| == 1 && IsDelimiter(rest[i][0])
        {
          assert rest[i] == ts[i + 2];
        }
      }
      JoinSplit(rest);
      var d := ts[1][0];
      assert ts[1] == [d];
      assert ts == [ts[0]] + ([ts[1]] + rest);
      JoinCons(ts[0], [ts[1]] + rest);
      JoinCons(ts[1], rest);
      SplitPrefix(ts[0], [d] + Join(rest));
      assert ([d] + Join(rest))[1..] == Join(rest);
      assert Split([d] + Join(rest)) == ["", [d]] + rest;
      assert ts[0] + "" == ts[0];
    }
  }

  // ---------------------------------------------------------------------
  // The stack machine, as functions (lines 148-180)
  // ---------------------------------------------------------------------

  /** The value stack and the operator stack. */
  datatype Stacks = Stacks(values: seq<string>, ops: seq<char>)

  function Top(st: Stacks): char
    requires st.ops != []
  {
    st.ops[|st.ops| - 1]
  }

  /** Lines 165, 171 and 177: pop an operator, pop s2 and then s1, push
      ApplyBigOp's result. Popping an empty Stack throws
      InvalidOperationException. */
  function Reduce(st: Stacks): (r: Result<Stacks>)
    requires st.ops != []
    ensures r.Ok? ==> |r.value.values| == |st.values| - 1 && r.value.ops == st.ops[..|st.ops| - 1]
    ensures r.Err? ==> r.error == EmptyStack || (IsOperator(Top(st)) && MayFail(Top(st), r.error))
    ensures |st.values| < 2 <==> r == Err(EmptyStack)
  {
    var n := |st.values|;
    if n < 2 then Err(EmptyStack)
    else
      match ApplyBigOp(Top(st), st.values[n - 1], st.values[n - 2])
      case Err(e) => Err(e)
      case Ok(x) => Ok(Stacks(st.values[..n - 2] + [x], st.ops[..|st.ops| - 1]))
  }

  /** Lines 161-166: reduce down to the nearest '(' and pop it; with no '('
      the final Pop throws. */
  function CloseGroup(st: Stacks): (r: Result<Stacks>)
    ensures r.Ok? ==> |r.value.ops| < |st.ops|
    ensures '(' !in st.ops ==> r.Err?
    decreases |st.ops|
  {
    if st.ops == [] then Err(EmptyStack)
    else if Top(st) == '(' then Ok(Stacks(st.values, st.ops[..|st.ops| - 1]))
    else
      match Reduce(st)
      case Err(e) => Err(e)
      case Ok(next) =>
        assert '(' in next.ops ==> '(' in st.ops by {
          if '(' in next.ops {
            var k :| 0 <= k < |next.ops| && next.ops[k] == '(';
            assert st.ops[k] == '(';
          }
        }
        CloseGroup(next)
  }

  /** Lines 167-173: reduce while the top operator is not '(' and has
      precedence, then push op. */
  function PushOperator(st: Stacks, op: char): (r: Result<Stacks>)
    ensures r.Ok? ==> r.value.ops != [] && Top(r.value) == op
    decreases |st.ops|
  {
    if st.ops != [] && Top(st) != '(' && HasPrecedence(op, Top(st)) then
      match Reduce(st)
      case Err(e) => Err(e)
      case Ok(next) => PushOperator(next, op)
    else Ok(Stacks(st.values, st.ops + [op]))
  }

  /** Lines 176-179: reduce until no operator is left (a leftover '(' is
      reduced too), then pop the answer. */
  function Finish(st: Stacks): (r: Result<string>)
    ensures st.ops == [] ==> (r.Ok? <==> st.values != [])
    decreases |st.ops|
  {
    if st.ops != [] then
      match Reduce(st)
      case Err(e) => Err(e)
      case Ok(next) => Finish(next)
    else if st.values == [] then Err(EmptyStack)
    else Ok(st.values[|st.values| - 1])
  }

  /** String.Contains(string): t occurs somewhere in s. */
  function Occurs(t: string, s: string): (b: bool)
    ensures b ==> |t| <= |s|
    decreases |s|
  {
    if |t| > |s| then false
    else if s[..|t|] == t then true
    else s != [] && Occurs(t, s[1..])
  }

  /** Lines 153-173: one token. An empty token is skipped; a token starting
      with a digit (or a '-' followed by more) is a number; brackets open
      and close groups; an operator is pushed; anything else is ignored. */
  function Step(st: Stacks, token: string): Result<Stacks> {
    if token == "" then Ok(st)
    else if IsDigit(token[0]) || (|token| > 1 && token[0] == '-') then Ok(Stacks(st.values + [token], st.ops))
    else if token == "(" then Ok(Stacks(st.values, st.ops + ['(']))
    else if token == ")" then CloseGroup(st)
    else if Occurs(token, "+-*/^") then PushOperator(st, token[0])
    else Ok(st)
  }

  /** The tokens read from the start, stopping at the first exception. */
  function Run(tokens: seq<string>): Result<Stacks> {
    if tokens == [] then Ok(Stacks([], []))
    else
      match Run(tokens[..|tokens| - 1])
      case Err(e) => Err(e)
      case Ok(st) => Step(st, tokens[|tokens| - 1])
  }

  /** Lines 144-146: the token list of an expression. */
  function Tokens(expression: string): seq<string> {
    Split(Normalize(expression))
  }

  /** What Evaluate returns for an expression, or the exception it throws. */
  function Evaluation(expression: string): Result<string> {
    match Run(Tokens(expression))
    case Err(e) => Err(e)
    case Ok(st) => Finish(st)
  }

  lemma {:induction false} RunSnoc(ts: seq<string>, t: string)
    ensures Run(ts + [t]) == match Run(ts) case Err(e) => Err(e) case Ok(st) => Step(st, t)
  {
    assert (ts + [t])[..|ts|] == ts;
  }

  /** Once a token throws, the rest of the tokens are never read. */
  lemma {:induction false} RunStops(ts: seq<string>, j: nat)
    requires j <= |ts| && Run(ts[..j]).Err?
    ensures Run(ts) == Run(ts[..j])
    decreases |ts| - j
  {
    if j < |ts| {
      RunSnoc(ts[..j], ts[j]);
      assert ts[..j] + [ts[j]] == ts[..j + 1];
      RunStops(ts, j + 1);
    } else {
      assert ts[..j] == ts;
    }
  }

  // ---------------------------------------------------------------------
  // The engine itself (lines 142-181)
  // ---------------------------------------------------------------------

  /** Evaluate: returns the text of the answer, or the exception thrown. */
  method Evaluate(expression: string) returns (r: Result<string>)
    ensures r == Evaluation(expression)
  {
    var tokens := Split(Normalize(expression));
    var values: seq<string> := [];
    var ops: seq<char> := [];
    for i := 0 to |tokens|
      invariant Run(tokens[..i]) == Ok(Stacks(values, ops))
    {
      var token := tokens[i];
      RunSnoc(tokens[..i], token);
      assert tokens[..i] + [token] == tokens[..i + 1];
      if token == "" {
        continue;
      }
      if IsDigit(token[0]) || (|token| > 1 && token[0] == '-') {
        values := values + [token];
      } else if token == "(" {
        ops := ops + ['('];
      } else if token == ")" {
        var next := CloseBracket(values, ops);
        if next.Err? {
          RunStops(tokens, i + 1);
          return Err(next.error);
        }
        values, ops := next.value.values, next.value.ops;
      } else if Occurs(token, "+-*/^") {
        var next := PushWithPrecedence(values, ops, token[0]);
        if next.Err? {
          RunStops(tokens, i + 1);
          return Err(next.error);
        }
        values, ops := next.value.values, next.value.ops;
      }
    }
    assert tokens[..|tokens|] == tokens;
    r := ReduceAll(values, ops);
  }

  /** Lines 161-166: the stacks after a ')' token. */
  method CloseBracket(values0: seq<string>, ops0: seq<char>) returns (r: Result<Stacks>)
    ensures r == CloseGroup(Stacks(values0, ops0))
  {
    var values, ops := values0, ops0;
    while ops != [] && ops[|ops| - 1] != '('
      invariant CloseGroup(Stacks(values, ops)) == CloseGroup(Stacks(values0, ops0))
      decreases |ops|
    {
      var next := Reduce(Stacks(values, ops));
      if next.Err? {
        return Err(next.error);
      }
      values, ops := next.value.values, next.value.ops;
    }
    if ops == [] {
      return Err(EmptyStack);
    }
    r := Ok(Stacks(values, ops[..|ops| - 1]));
  }

  /** Lines 167-173: the stacks after an operator token. */
  method PushWithPrecedence(values0: seq<string>, ops0: seq<char>, op: char) returns (r: Result<Stacks>)
    ensures r == PushOperator(Stacks(values0, ops0), op)
  {
    var values, ops := values0, ops0;
    while ops != [] && ops[|ops| - 1] != '(' && HasPrecedence(op, ops[|ops| - 1])
      invariant PushOperator(Stacks(values, ops), op) == PushOperator(Stacks(values0, ops0), op)
      decreases |ops|
    {
      var next := Reduce(Stacks(values, ops));
      if next.Err? {
        return Err(next.error);
      }
      values, ops := next.value.values, next.value.ops;
    }
    r := Ok(Stacks(values, ops + [op]));
  }

  /** Lines 176-180: reduce what is left and pop the answer. */
  method ReduceAll(values0: seq<string>, ops0: seq<char>) returns (r: Result<string>)
    ensures r == Finish(Stacks(values0, ops0))
  {
    var values, ops := values0, ops0;
    while ops != []
      invariant Finish(Stacks(values, ops)) == Finish(Stacks(values0, ops0))
      decreases |ops|
    {
      var next := Reduce(Stacks(values, ops));
      if next.Err? {
        return Err(next.error);
      }
      values, ops := next.value.values, next.value.ops;
    }
    if values == [] {
      return Err(EmptyStack);
    }
    r := Ok(values[|values| - 1]);
  }

  // ---------------------------------------------------------------------
  // What the engine computes
  // ---------------------------------------------------------------------

  /** A number as the engine reads it: it starts with a digit and holds no
      delimiter and no space. */
  predicate Operand(x: string) {
    x != [] && IsDigit(x[0]) && Plain(x) && ' ' !in x
  }

  /** Two delimiters side by side are not both '*'. */
  predicate StarSafe(ts: seq<string>) {
    forall i | 0 <= i < |ts| - 2 && i % 2 == 1 :: ts[i + 1] == "" ==> !(ts[i] == "*" && ts[i + 2] == "*")
  }

  /** No piece holds a space. */
  predicate Spaceless(ts: seq<string>) {
    forall i | 0 <= i < |ts| :: ' ' !in ts[i]
  }

  lemma {:induction false} PlainNoStar(x: string)
    requires Plain(x)
    ensures '*' !in x
  {
    forall k | 0 <= k < |x| ensures x[k] != '*' {
      assert !IsDelimiter(x[k]);
    }
  }

  /** The tail of an alternating list, two pieces on, alternates too. */
  lemma {:induction false} AlternatesTail(ts: seq<string>)
    requires Alternates(ts) && |ts| > 1
    ensures Alternates(ts[2..]) && Spaceless(ts) ==> Spaceless(ts[2..])
    ensures StarSafe(ts) ==> StarSafe(ts[2..])
  {
    var rest := ts[2..];
    forall i | 0 <= i < |rest|
      ensures if i % 2 == 0 then Plain(rest[i]) else |rest[i]| == 1 && IsDelimiter(rest[i][0])
    {
      assert rest[i] == ts[i + 2];
    }
    if StarSafe(ts) {
      forall i | 0 <= i < |rest| - 2 && i % 2 == 1
        ensures rest[i + 1] == "" ==> !(rest[i] == "*" && rest[i + 2] == "*")
      {
        assert rest[i] == ts[i + 2] && rest[i + 1] == ts[i + 3] && rest[i + 2] == ts[i + 4];
      }
    }
    if Spaceless(ts) {
      forall i | 0 <= i < |rest| ensures ' ' !in rest[i] { assert rest[i] == ts[i + 2]; }
    }
  }

  /** The joined pieces start with the first character of the first
      non-empty piece. */
  lemma {:induction false} JoinStart(ts: seq<string>)
    requires Alternates(ts) && |ts| > 1
    ensures Join(ts) != []
    ensures ts[0] != "" ==> Join(ts)[0] == ts[0][0]
    ensures ts[0] == "" ==> Join(ts)[0] == ts[1][0]
  {
    assert ts == [ts[0]] + ts[1..];
    JoinCons(ts[0], ts[1..]);
    assert ts[1..] == [ts[1]] + ts[2..];
    JoinCons(ts[1], ts[2..]);
  }

  /** Cleaning leaves the joined pieces alone. */
  lemma {:induction false} NormalizeJoin(ts: seq<string>)
    requires Alternates(ts) && Spaceless(ts) && StarSafe(ts)
    ensures Normalize(Join(ts)) == Join(ts)
    decreases |ts|
  {
    NoSpaceJoin(ts);
    RemoveFacts(Join(ts), ' ');
    ReplacePowerJoin(ts);
  }

  lemma {:induction false} NoSpaceJoin(ts: seq<string>)
    requires Spaceless(ts)
    ensures ' ' !in Join(ts)
    decreases |ts|
  {
    if ts != [] {
      assert Spaceless(ts[1..]) by {
        forall i | 0 <= i < |ts[1..]| ensures ' ' !in ts[1..][i] { assert ts[1..][i] == ts[i + 1]; }
      }
      NoSpaceJoin(ts[1..]);
      assert ' ' !in ts[0];
    }
  }

  lemma {:induction false} ReplacePowerJoin(ts: seq<string>)
    requires Alternates(ts) && StarSafe(ts)
    ensures ReplacePower(Join(ts)) == Join(ts)
    decreases |ts|
  {
    PlainNoStar(ts[0]);
    if |ts| == 1 {
      JoinCons(ts[0], []);
      assert ts == [ts[0]] + [];
      assert ts[0] + "" == ts[0];
      ReplacePowerNoStar(ts[0]);
    } else {
      var rest := ts[2..];
      AlternatesTail(ts);
      ReplacePowerJoin(rest);
      assert ts == [ts[0]] + ([ts[1]] + rest);
      JoinCons(ts[0], [ts[1]] + rest);
      JoinCons(ts[1], rest);
      ReplacePowerAppend(ts[0], ts[1] + Join(rest));
      assert ts[1] == [ts[1][0]];
      if ts[1][0] == '*' {
        AfterStar(ts);
      }
      ReplacePowerOperator(ts[1][0], Join(rest));
    }
  }

  /** What follows a '*' piece does not start with '*'. */
  lemma {:induction false} AfterStar(ts: seq<string>)
    requires Alternates(ts) && StarSafe(ts) && |ts| > 1 && ts[1] == "*"
    ensures Join(ts[2..]) == [] || Join(ts[2..])[0] != '*'
  {
    var rest := ts[2..];
    AlternatesTail(ts);
    if |rest| > 1 {
      JoinStart(rest);
      if rest[0] != "" {
        PlainNoStar(rest[0]);
      } else {
        assert ts[2] == "" && rest[1] == ts[3];
        assert !(ts[1] == "*" && ts[3] == "*");
        assert rest[1] == [rest[1][0]];
      }
    } else {
      JoinCons(rest[0], []);
      assert rest == [rest[0]] + [];
      assert rest[0] + "" == rest[0];
      PlainNoStar(rest[0]);
    }
  }

  /** Pieces in the shape Split returns, with no space and no "**", are the
      tokens of their own text. */
  lemma {:induction false} TokensOf(ts: seq<string>)
    requires Alternates(ts) && Spaceless(ts) && StarSafe(ts)
    ensures Tokens(Join(ts)) == ts
  {
    NormalizeJoin(ts);
    JoinSplit(ts);
  }

  /** An operator token reaches the operator branch. */
  lemma {:induction false} OperatorToken(st: Stacks, op: char)
    requires IsOperator(op)
    ensures Step(st, [op]) == PushOperator(st, op)
  {
    assert "+-*/^"[..1] == "+";
    assert "+-*/^"[1..][..1] == "-";
    assert "+-*/^"[2..][..1] == "*";
    assert "+-*/^"[3..][..1] == "/";
    assert "+-*/^"[4..][..1] == "^";
    assert "+-*/^"[1..][1..] == "+-*/^"[2..];
    assert "+-*/^"[2..][1..] == "+-*/^"[3..];
    assert "+-*/^"[3..][1..] == "+-*/^"[4..];
  }

  /** A number on its own comes back as it was written. */
  lemma {:induction false} LoneNumber(a: string)
    requires Operand(a)
    ensures Evaluation(a) == Ok(a)
  {
    assert Alternates([a]) && Spaceless([a]) && StarSafe([a]);
    JoinCons(a, []);
    assert [a] == [a] + [] && a + "" == a;
    TokensOf([a]);
    RunSnoc([], a);
    assert [] + [a] == [a];
  }

  /** With one operator, the result is ApplyBigOp on the two numbers. */
  lemma {:induction false} OneOperator(a: string, op: char, b: string)
    requires Operand(a) && Operand(b) && IsOperator(op)
    ensures Evaluation(a + [op] + b) == ApplyBigOp(op, b, a)
  {
    ThreeTokens(a, [op], b);
    RunOneOperator(a, op, b);
    FinishLast(a, b, op);
  }

  lemma {:induction false} RunOneOperator(a: string, op: char, b: string)
    requires Operand(a) && Operand(b) && IsOperator(op)
    ensures Run([a, [op], b]) == Ok(Stacks([a, b], [op]))
  {
    RunSnoc([], a);
    assert [] + [a] == [a];
    RunSnoc([a], [op]);
    assert [a] + [[op]] == [a, [op]];
    OperatorToken(Stacks([a], []), op);
    assert [] + [op] == [op];
    RunSnoc([a, [op]], b);
    assert [a, [op]] + [b] == [a, [op], b];
    assert [a] + [b] == [a, b];
  }

  /** Two values and one operator left: the answer is that operator's result. */
  lemma {:induction false} FinishLast(a: string, b: string, op: char)
    ensures Finish(Stacks([a, b], [op])) == ApplyBigOp(op, b, a)
  {
    var r := ApplyBigOp(op, b, a);
    assert [a, b][..0] == [] && [op][..0] == [];
    if r.Ok? {
      assert Finish(Stacks([r.value], [])) == Ok(r.value);
    }
  }

  lemma {:induction false} ThreeTokens(a: string, d: string, b: string)
    requires Plain(a) && Plain(b) && ' ' !in a && ' ' !in b && |d| == 1 && IsDelimiter(d[0])
    ensures Tokens(a + d + b) == [a, d, b]
  {
    var ts := [a, d, b];
    assert Alternates(ts) && Spaceless(ts) && StarSafe(ts);
    JoinCons(b, []);
    assert [b] == [b] + [];
    JoinCons(d, [b]);
    assert [d, b] == [d] + [b];
    JoinCons(a, [d, b]);
    assert ts == [a] + [d, b];
    assert a + (d + (b + "")) == a + d + b;
    TokensOf(ts);
  }

  /** Joining pieces one at a time from the left. */
  lemma {:induction false} JoinFive(p0: string, p1: string, p2: string, p3: string, p4: string)
    ensures Join([p0, p1, p2, p3, p4]) == p0 + p1 + p2 + p3 + p4
  {
    FiveParts(p0, p1, p2, p3, p4);
    JoinCons(p4, []);
    JoinCons(p3, [p4]);
    JoinCons(p2, [p3, p4]);
    JoinCons(p1, [p2, p3, p4]);
    JoinCons(p0, [p1, p2, p3, p4]);
  }

  /** Five elements taken apart from the front, and built up from the back. */
  lemma {:induction false} FiveParts<T>(p0: T, p1: T, p2: T, p3: T, p4: T)
    ensures [p4] == [p4] + [] && [p3, p4] == [p3] + [p4] && [p2, p3, p4] == [p2] + [p3, p4]
    ensures [p1, p2, p3, p4] == [p1] + [p2, p3, p4] && [p0, p1, p2, p3, p4] == [p0] + [p1, p2, p3, p4]
    ensures [p0, p1, p2] + [p3] == [p0, p1, p2, p3] && [p0, p1, p2, p3] + [p4] == [p0, p1, p2, p3, p4]
  {}

  /** Applies op to two results, the left one looked at first. */
  function Combine(left: Result<string>, op: char, right: Result<string>): Result<string> {
    match left
    case Err(e) => Err(e)
    case Ok(x) =>
      match right
      case Err(e) => Err(e)
      case Ok(y) => ApplyBigOp(op, y, x)
  }

  /** Two operators: the left one is applied first exactly when the right
      one does not bind more tightly; otherwise the right one is. */
  lemma {:induction false} TwoOperators(a: string, op1: char, b: string, op2: char, c: string)
    requires Operand(a) && Operand(b) && Operand(c) && IsOperator(op1) && IsOperator(op2)
    ensures HasPrecedence(op2, op1) ==>
              Evaluation(a + [op1] + b + [op2] + c) == Combine(ApplyBigOp(op1, b, a), op2, Ok(c))
    ensures !HasPrecedence(op2, op1) ==>
              Evaluation(a + [op1] + b + [op2] + c) == Combine(Ok(a), op1, ApplyBigOp(op2, c, b))
  {
    FiveTokens(a, op1, b, op2, c);
    FiveParts(a, [op1], b, [op2], c);
    RunOneOperator(a, op1, b);
    RunSnoc([a, [op1], b], [op2]);
    OperatorToken(Stacks([a, b], [op1]), op2);
    RunSnoc([a, [op1], b, [op2]], c);
    if HasPrecedence(op2, op1) {
      LeftFirst(a, op1, b, op2, c);
    } else {
      RightFirst(a, op1, b, op2, c);
    }
  }

  /** Two operators between three numbers split into five tokens. */
  lemma {:induction false} FiveTokens(a: string, op1: char, b: string, op2: char, c: string)
    requires Operand(a) && Operand(b) && Operand(c) && IsOperator(op1) && IsOperator(op2)
    ensures Tokens(a + [op1] + b + [op2] + c) == [a, [op1], b, [op2], c]
  {
    var ts := [a, [op1], b, [op2], c];
    assert Alternates(ts) && Spaceless(ts) && StarSafe(ts);
    JoinFive(a, [op1], b, [op2], c);
    TokensOf(ts);
  }

  lemma {:induction false} LeftFirst(a: string, op1: char, b: string, op2: char, c: string)
    requires IsOperator(op1) && HasPrecedence(op2, op1)
    ensures (match PushOperator(Stacks([a, b], [op1]), op2)
             case Err(e) => Err(e)
             case Ok(st) => Finish(Stacks(st.values + [c], st.ops)))
            == Combine(ApplyBigOp(op1, b, a), op2, Ok(c))
  {
    var r := ApplyBigOp(op1, b, a);
    ReducePair(a, b, op1);
    if r.Ok? {
      PushOnEmpty([r.value], op2);
      assert PushOperator(Stacks([a, b], [op1]), op2) == Ok(Stacks([r.value], [op2]));
      assert [r.value] + [c] == [r.value, c];
      FinishLast(r.value, c, op2);
    } else {
      assert PushOperator(Stacks([a, b], [op1]), op2) == Err(r.error);
    }
  }

  lemma {:induction false} RightFirst(a: string, op1: char, b: string, op2: char, c: string)
    requires !HasPrecedence(op2, op1)
    ensures (match PushOperator(Stacks([a, b], [op1]), op2)
             case Err(e) => Err(e)
             case Ok(st) => Finish(Stacks(st.values + [c], st.ops)))
            == Combine(Ok(a), op1, ApplyBigOp(op2, c, b))
  {
    assert [op1] + [op2] == [op1, op2];
    assert PushOperator(Stacks([a, b], [op1]), op2) == Ok(Stacks([a, b], [op1, op2]));
    assert [a, b] + [c] == [a, b, c];
    var r := ApplyBigOp(op2, c, b);
    ReduceTriple(a, b, c, op1, op2);
    if r.Ok? {
      FinishLast(a, r.value, op1);
    }
  }

  /** Three values and two operators: the top operator takes the top two. */
  lemma {:induction false} ReduceTriple(a: string, b: string, c: string, op1: char, op2: char)
    ensures Reduce(Stacks([a, b, c], [op1, op2])) ==
            match ApplyBigOp(op2, c, b) case Err(e) => Err(e) case Ok(y) => Ok(Stacks([a, y], [op1]))
  {
    assert [a, b, c][..1] == [a] && [op1, op2][..1] == [op1];
    var r := ApplyBigOp(op2, c, b);
    if r.Ok? {
      assert [a] + [r.value] == [a, r.value];
    }
  }

  /** With no operator stacked, an operator is pushed as it is. */
  lemma {:induction false} PushOnEmpty(vs: seq<string>, op: char)
    ensures PushOperator(Stacks(vs, []), op) == Ok(Stacks(vs, [op]))
  {
    assert [] + [op] == [op];
  }

  /** Two values and one operator reduce to the operator's result. */
  lemma {:induction false} ReducePair(x: string, y: string, op: char)
    ensures Reduce(Stacks([x, y], [op])) ==
            match ApplyBigOp(op, y, x) case Err(e) => Err(e) case Ok(z) => Ok(Stacks([z], []))
  {
    assert [x, y][..0] == [] && [op][..0] == [];
    var r := ApplyBigOp(op, y, x);
    if r.Ok? {
      assert [] + [r.value] == [r.value];
    }
  }

  /** A bracketed pair is applied first, whatever the operator after it. */
  lemma {:induction false} Bracketed(a: string, op1: char, b: string, op2: char, c: string)
    requires Operand(a) && Operand(b) && Operand(c) && IsOperator(op1) && IsOperator(op2)
    ensures Evaluation("(" + a + [op1] + b + ")" + [op2] + c) == Combine(ApplyBigOp(op1, b, a), op2, Ok(c))
  {
    var ts := ["", "(", a, [op1], b, ")", "", [op2], c];
    var e := "(" + a + [op1] + b + ")" + [op2] + c;
    BracketedTokens(a, op1, b, op2, c);
    assert Tokens(e) == ts;
    RunGroup(a, op1, b);
    SixThenThree("", "(", a, [op1], b, ")", "", [op2], c);
    var r := ApplyBigOp(op1, b, a);
    if r.Ok? {
      RunTail(ts[..6], r.value, op2, c);
      assert Run(ts) == Ok(Stacks([r.value, c], [op2]));
      FinishLast(r.value, c, op2);
      assert Evaluation(e) == ApplyBigOp(op2, c, r.value);
    } else {
      RunStops(ts, 6);
      assert Run(ts) == Err(r.error);
    }
  }

  /** Nine tokens as the six of a group followed by three more. */
  lemma {:induction false} SixThenThree<T>(p0: T, p1: T, p2: T, p3: T, p4: T, p5: T, p6: T, p7: T, p8: T)
    ensures [p0, p1, p2, p3, p4, p5, p6, p7, p8][..6] == [p0, p1, p2, p3, p4, p5]
    ensures [p0, p1, p2, p3, p4, p5] + [p6, p7, p8] == [p0, p1, p2, p3, p4, p5, p6, p7, p8]
  {}

  /** "(", a, op1, b, ")": the group reduces to one value. */
  lemma {:induction false} RunGroup(a: string, op1: char, b: string)
    requires Operand(a) && Operand(b) && IsOperator(op1)
    ensures Run(["", "(", a, [op1], b, ")"]) ==
            match ApplyBigOp(op1, b, a) case Err(e) => Err(e) case Ok(x) => Ok(Stacks([x], []))
  {
    RunOpen(a, op1, b);
    RunSnoc(["", "(", a, [op1], b], ")");
    assert ["", "(", a, [op1], b] + [")"] == ["", "(", a, [op1], b, ")"];
    CloseGroupPair(a, b, op1);
  }

  lemma {:induction false} RunOpen(a: string, op1: char, b: string)
    requires Operand(a) && Operand(b) && IsOperator(op1)
    ensures Run(["", "(", a, [op1], b]) == Ok(Stacks([a, b], ['(', op1]))
  {
    RunSnoc([], "");
    assert [] + [""] == [""];
    RunSnoc([""], "(");
    assert [""] + ["("] == ["", "("];
    assert [] + ['('] == ['('];
    RunSnoc(["", "("], a);
    assert ["", "("] + [a] == ["", "(", a];
    assert [] + [a] == [a];
    RunSnoc(["", "(", a], [op1]);
    assert ["", "(", a] + [[op1]] == ["", "(", a, [op1]];
    OperatorToken(Stacks([a], ['(']), op1);
    assert ['('] + [op1] == ['(', op1];
    RunSnoc(["", "(", a, [op1]], b);
    assert ["", "(", a, [op1]] + [b] == ["", "(", a, [op1], b];
    assert [a] + [b] == [a, b];
  }

  /** Closing a group that holds one operator and two values. */
  lemma {:induction false} CloseGroupPair(a: string, b: string, op1: char)
    requires op1 != '('
    ensures CloseGroup(Stacks([a, b], ['(', op1])) ==
            match ApplyBigOp(op1, b, a) case Err(e) => Err(e) case Ok(x) => Ok(Stacks([x], []))
  {
    assert [a, b][..0] == [] && ['(', op1][..1] == ['('] && ['('][..0] == [];
    var r := ApplyBigOp(op1, b, a);
    if r.Ok? {
      assert [] + [r.value] == [r.value];
      assert CloseGroup(Stacks([r.value], ['('])) == Ok(Stacks([r.value], []));
    }
  }

  /** After one value, an empty piece, an operator and a number. */
  lemma {:induction false} RunTail(ts: seq<string>, x: string, op2: char, c: string)
    requires Run(ts) == Ok(Stacks([x], [])) && Operand(c) && IsOperator(op2)
    ensures Run(ts + ["", [op2], c]) == Ok(Stacks([x, c], [op2]))
  {
    RunSnoc(ts, "");
    RunSnoc(ts + [""], [op2]);
    OperatorToken(Stacks([x], []), op2);
    PushOnEmpty([x], op2);
    RunSnoc(ts + [""] + [[op2]], c);
    assert ts + [""] + [[op2]] + [c] == ts + ["", [op2], c];
    assert [x] + [c] == [x, c];
  }

  lemma {:induction false} BracketedTokens(a: string, op1: char, b: string, op2: char, c: string)
    requires Operand(a) && Operand(b) && Operand(c) && IsOperator(op1) && IsOperator(op2)
    ensures Tokens("(" + a + [op1] + b + ")" + [op2] + c) == ["", "(", a, [op1], b, ")", "", [op2], c]
  {
    var ts := ["", "(", a, [op1], b, ")", "", [op2], c];
    BracketedShape(a, op1, b, op2, c);
    BracketedJoin(a, op1, b, op2, c);
    TokensOf(ts);
  }

  lemma {:induction false} BracketedShape(a: string, op1: char, b: string, op2: char, c: string)
    requires Operand(a) && Operand(b) && Operand(c) && IsOperator(op1) && IsOperator(op2)
    ensures var ts := ["", "(", a, [op1], b, ")", "", [op2], c];
            Alternates(ts) && Spaceless(ts) && StarSafe(ts)
  {
    var ts := ["", "(", a, [op1], b, ")", "", [op2], c];
    assert Alternates(ts) && Spaceless(ts);
    BracketedStarSafe(ts);
  }

  lemma {:induction false} BracketedJoin(a: string, op1: char, b: string, op2: char, c: string)
    ensures Join(["", "(", a, [op1], b, ")", "", [op2], c]) == "(" + a + [op1] + b + ")" + [op2] + c
  {
    JoinNine("", "(", a, [op1], b, ")", "", [op2], c);
    assert "" + "(" + a + [op1] + b + ")" + "" + [op2] + c == "(" + a + [op1] + b + ")" + [op2] + c;
  }

  lemma {:induction false} BracketedStarSafe(ts: seq<string>)
    requires |ts| == 9 && ts[2] != "" && ts[4] != "" && ts[5] == ")"
    ensures StarSafe(ts)
  {
    forall i | 0 <= i < |ts| - 2 && i % 2 == 1
      ensures ts[i + 1] == "" ==> !(ts[i] == "*" && ts[i + 2] == "*")
    {
      if i == 5 { assert ts[i] != "*"; }
    }
  }

  lemma {:induction false} JoinNine(p0: string, p1: string, p2: string, p3: string, p4: string,
                                    p5: string, p6: string, p7: string, p8: string)
    ensures Join([p0, p1, p2, p3, p4, p5, p6, p7, p8]) == p0 + p1 + p2 + p3 + p4 + p5 + p6 + p7 + p8
  {
    NineParts(p0, p1, p2, p3, p4, p5, p6, p7, p8);
    JoinFive(p4, p5, p6, p7, p8);
    JoinCons(p3, [p4, p5, p6, p7, p8]);
    JoinCons(p2, [p3, p4, p5, p6, p7, p8]);
    JoinCons(p1, [p2, p3, p4, p5, p6, p7, p8]);
    JoinCons(p0, [p1, p2, p3, p4, p5, p6, p7, p8]);
  }

  /** Nine elements: the first four taken apart from the front. */
  lemma {:induction false} NineParts<T>(p0: T, p1: T, p2: T, p3: T, p4: T, p5: T, p6: T, p7: T, p8: T)
    ensures [p3, p4, p5, p6, p7, p8] == [p3] + [p4, p5, p6, p7, p8]
    ensures [p2, p3, p4, p5, p6, p7, p8] == [p2] + [p3, p4, p5, p6, p7, p8]
    ensures [p1, p2, p3, p4, p5, p6, p7, p8] == [p1] + [p2, p3, p4, p5, p6, p7, p8]
    ensures [p0, p1, p2, p3, p4, p5, p6, p7, p8] == [p0] + [p1, p2, p3, p4, p5, p6, p7, p8]
  {}

  /** No token ever takes the signed-number branch: the splitter always cuts
      a '-' off on its own, so "-3" is the operator '-' and then 3. */
  lemma {:induction false} NoSignedNumber(expression: string)
    ensures forall i | 0 <= i < |Tokens(expression)| ::
              !(|Tokens(expression)[i]| > 1 && Tokens(expression)[i][0] == '-')
  {
    var ts := Tokens(expression);
    SplitAlternates(Normalize(expression));
    forall i | 0 <= i < |ts| ensures !(|ts[i]| > 1 && ts[i][0] == '-') {
      if i % 2 == 0 && |ts[i]| > 1 {
        assert !IsDelimiter(ts[i][0]);
      }
    }
  }

  /** A ')' with nothing open throws when the missing '(' is popped. */
  lemma {:induction false} LeadingClose(s: string)
    ensures Evaluation(")" + s) == Err(EmptyStack)
  {
    var y := Normalize(s);
    RemoveConcat(")", s, ' ');
    assert Remove(")", ' ') == ")" by { assert ")"[1..] == []; }
    ReplacePowerOperator(')', Remove(s, ' '));
    assert Normalize(")" + s) == ")" + y;
    assert (")" + y)[1..] == y;
    var ts := Tokens(")" + s);
    assert ts == ["", ")"] + Split(y);
    RunSnoc([], "");
    assert [] + [""] == [""];
    RunSnoc([""], ")");
    assert ts[..2] == [""] + [")"];
    RunStops(ts, 2);
  }

  /** A leading minus sign is an operator with one value under it, so
      reducing it throws. */
  lemma {:induction false} LeadingMinus(a: string)
    requires Operand(a)
    ensures Evaluation("-" + a) == Err(EmptyStack)
  {
    ThreeTokens("", "-", a);
    assert "" + "-" + a == "-" + a;
    RunSnoc([], "");
    assert [] + [""] == [""];
    RunSnoc([""], "-");
    assert [""] + ["-"] == ["", "-"];
    OperatorToken(Stacks([], []), '-');
    PushOnEmpty([], '-');
    RunSnoc(["", "-"], a);
    assert ["", "-"] + [a] == ["", "-", a];
    assert [] + [a] == [a];
  }

  /** An unclosed '(' between two numbers is reduced like an operator;
      ApplyBigOp has no case for it and yields "0". */
  lemma {:induction false} LeftoverOpen(a: string, b: string)
    requires Operand(a) && Operand(b)
    ensures Evaluation(a + "(" + b) == Ok("0")
  {
    ThreeTokens(a, "(", b);
    RunOpenOperand(a, b);
    FinishLast(a, b, '(');
    OpenApplies(a, b);
  }

  /** A number, '(' and a number leave both numbers and the '(' stacked. */
  lemma {:induction false} RunOpenOperand(a: string, b: string)
    requires Operand(a) && Operand(b)
    ensures Run([a, "(", b]) == Ok(Stacks([a, b], ['(']))
  {
    ThreeParts(a, "(", b);
    ThreeParts(a, b, b);
    ThreeParts('(', '(', '(');
    RunSnoc([], a);
    assert Run([a]) == Ok(Stacks([a], []));
    RunSnoc([a], "(");
    assert Run([a, "("]) == Ok(Stacks([a], ['(']));
    RunSnoc([a, "("], b);
  }

  /** Three elements built up from the back. */
  lemma {:induction false} ThreeParts<T>(p0: T, p1: T, p2: T)
    ensures [] + [p0] == [p0] && [p0] + [p1] == [p0, p1] && [p0, p1] + [p2] == [p0, p1, p2]
  {}

  /** ApplyBigOp has no case for '('. */
  lemma {:induction false} OpenApplies(a: string, b: string)
    ensures ApplyBigOp('(', b, a) == Ok("0")
  {}

  /** A natural number's text is an operand. */
  lemma {:induction false} NaturalOperand(x: nat)
    ensures Operand(IntToString(x))
  {
    var t := IntToString(x);
    assert t == NatToDigits(x);
    forall k | 0 <= k < |t| ensures !IsDelimiter(t[k]) && t[k] != ' ' {
      assert IsDigit(t[k]);
    }
  }

  /** x+y*z is x + (y * z). */
  lemma {:induction false} SumOfProduct(x: nat, y: nat, z: nat)
    ensures Evaluation(IntToString(x) + "+" + IntToString(y) + "*" + IntToString(z)) == Ok(IntToString(x + y * z))
  {
    var a, b, c := IntToString(x), IntToString(y), IntToString(z);
    NaturalOperand(x);
    NaturalOperand(y);
    NaturalOperand(z);
    assert a + "+" + b + "*" + c == a + ['+'] + b + ['*'] + c;
    TwoOperators(a, '+', b, '*', c);
    assert !HasPrecedence('*', '+');
    SumOfProductValue(x, y, z);
  }

  lemma {:induction false} SumOfProductValue(x: int, y: int, z: int)
    ensures Combine(Ok(IntToString(x)), '+', ApplyBigOp('*', IntToString(z), IntToString(y))) == Ok(IntToString(x + y * z))
  {
    IntegerProduct(y, z);
    CombineOk(IntToString(x), '+', IntToString(y * z));
    IntegerSum(x, y * z);
  }

  /** (x+y)*z is (x + y) * z. */
  lemma {:induction false} ProductOfSum(x: nat, y: nat, z: nat)
    ensures Evaluation("(" + IntToString(x) + "+" + IntToString(y) + ")" + "*" + IntToString(z)) == Ok(IntToString((x + y) * z))
  {
    var a, b, c := IntToString(x), IntToString(y), IntToString(z);
    NaturalOperand(x);
    NaturalOperand(y);
    NaturalOperand(z);
    assert "(" + a + "+" + b + ")" + "*" + c == "(" + a + ['+'] + b + ")" + ['*'] + c;
    Bracketed(a, '+', b, '*', c);
    ProductOfSumValue(x, y, z);
  }

  lemma {:induction false} ProductOfSumValue(x: int, y: int, z: int)
    ensures Combine(ApplyBigOp('+', IntToString(y), IntToString(x)), '*', Ok(IntToString(z))) == Ok(IntToString((x + y) * z))
  {
    IntegerSum(x, y);
    CombineOkRight(IntToString(x + y), '*', IntToString(z));
    IntegerProduct(x + y, z);
  }

  /** x^e^f is (x^e)^f. */
  lemma {:induction false} PowerOfPower(x: nat, e: nat, f: nat)
    requires e <= INT32_MAX && f <= INT32_MAX
    ensures Evaluation(IntToString(x) + "^" + IntToString(e) + "^" + IntToString(f)) == Ok(IntToString(Pow(Pow(x, e), f)))
  {
    var a, b, c := IntToString(x), IntToString(e), IntToString(f);
    NaturalOperand(x);
    NaturalOperand(e);
    NaturalOperand(f);
    assert a + "^" + b + "^" + c == a + ['^'] + b + ['^'] + c;
    TwoOperators(a, '^', b, '^', c);
    PowerOfPowerValue(x, e, f);
  }

  lemma {:induction false} PowerOfPowerValue(x: int, e: nat, f: nat)
    requires e <= INT32_MAX && f <= INT32_MAX
    ensures Combine(ApplyBigOp('^', IntToString(e), IntToString(x)), '^', Ok(IntToString(f))) == Ok(IntToString(Pow(Pow(x, e), f)))
  {
    IntegerPower(x, e);
    CombineOkRight(IntToString(Pow(x, e)), '^', IntToString(f));
    IntegerPower(Pow(x, e), f);
  }

  lemma {:induction false} CombineOk(a: string, op: char, y: string)
    ensures Combine(Ok(a), op, Ok(y)) == ApplyBigOp(op, y, a)
  {}

  lemma {:induction false} CombineOkRight(x: string, op: char, c: string)
    ensures Combine(Ok(x), op, Ok(c)) == ApplyBigOp(op, c, x)
  {}
}
