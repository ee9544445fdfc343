# Fixed-point decimal calculator engine

This project is a Dafny model of the arithmetic core of a console calculator
(`Program.cs`). The calculator keeps every number as decimal text. Internally
a number is a `BigInteger` magnitude scaled by a power of ten.

The model covers these parts:

- **`ApplyBigOp`.** The operator reads two decimal texts and aligns or combines
  their scales. It applies `+ - * / ^` and writes the result back as text. The
  text keeps at most 500 fractional digits, with trailing zeros and a trailing
  point removed.
- **`Evaluate` and `HasPrecedence`.** The shunting-yard evaluator removes
  spaces and turns `**` into `^`. It splits the text on `+-*/^()`, keeping the
  delimiters. It runs a value stack and an operator stack, and each reduction
  calls `ApplyBigOp`.
- **The console wrappers' arithmetic.** ADD, SUB, MULTIPLY, DIVIDE, SQUARE and
  CUBE repeat `ApplyBigOp`'s scale-and-format steps on their own.
- **The Newton solvers and their commands.** The solvers are `BigIntNthRoot`,
  `BigIntSquareRoot` and `BigIntCubeRoot`. The Root, SquareRoot and CubeRoot
  commands scale the radicand by `10^(500·n)`, root it, and split the digits
  into an integer part and a 500-digit fraction. They then add a sign or an
  imaginary tag.
- **The Factorial command.** It applies a range guard and multiplies in a
  loop.

**Mapping C# to Dafny.**

- `BigInteger` is Dafny's `int`, and strings are `seq<char>`.
- Exceptions are the `Err` cases of `Results.Result`, named after the .NET
  exception: `FormatError`, `OverflowError`, `DivideByZero`,
  `ArgumentOutOfRange`, `NegativeArgument` and `EmptyStack`.
- `BigInteger.Parse` and `int.Parse` follow `NumberStyles.Integer`:
  - optional white space around the number;
  - an optional sign;
  - one or more ASCII digits.
- `BigInteger` division truncates toward zero, and so does `Digits.TruncDiv`.
- `Regex.Split` is `Evaluator.Split`. It keeps empty pieces between adjacent
  delimiters, which `Evaluate` then skips.

**Two forms of each loop.** Code that updates state step by step is written
as methods with loops:

- `Evaluator.Evaluate` and its three helpers, over sequence stacks;
- the three root solvers;
- `Factorials.Factorial`.

Each method is proved equal to a functional specification:

- `Evaluator.Evaluation` over the token list;
- `Roots.NthRootOf`, `Roots.SquareRootOf` and `Roots.CubeRootOf`;
- `Factorials.Fact`.

The properties are proved about these functions.

**Termination of the solvers.** The three Newton loops share one step,
`Newton.Step(A, n, x) = ((n-1)x + A / x^(n-1)) / n`. The source's square and
cube formulas are that step for n = 2 and n = 3 (`Roots.SquareStep`,
`Roots.CubeStep`). The do-while loops are proved to terminate. The measure is
a phase relative to the exact floor root `Newton.FloorRoot`, then the iterate.

**Where the code differs from the usual reading.** The model follows the code:

- `"1.2.3"` is read as 123 with 3 places.
- A negative result that the 500-digit cap cuts to zero prints as `"-0"`.
- A leading `-` is always split off, so the signed-number branch of
  `Evaluate` is dead and `"-3"` fails on an empty stack.
- A leftover `(` reaches `ApplyBigOp`, which yields `"0"` for it.
- CUBE keeps the input's places instead of tripling them (see Findings).

## Model

| member | source | states |
|---|---|---|
| Text.IndexOfFacts | Program.cs:200-203 | `IndexOf` is -1 exactly when the character is absent; otherwise the character does not occur before the returned index |
| Text.RemoveFacts | Program.cs:214 | `Replace(".", "")` leaves no dot, and leaves a text without dots unchanged |
| Text.RemoveConcat | Program.cs:214 | removing a character distributes over concatenation |
| Text.PadLeftFacts | Program.cs:246 | `PadLeft` keeps the text as its suffix and fills only with the pad character |
| Text.TrimEndFacts | Program.cs:254 | `TrimEnd(c)` returns a prefix, and every character it removed is `c` |
| Text.TrimEndSplit | Program.cs:254 | a text is its `TrimEnd(c)` followed by a run of `c` |
| Text.TrimEndStops | Program.cs:254 | trimming stops at the last character that is not `c` |
| Digits.DigitsRoundTrip | Program.cs:243 | the digits `ToString` writes for m read back as m |
| Digits.CanonicalDigits | Program.cs:243 | a digit string with no leading zero is exactly the `ToString` of its value |
| Digits.DigitsAppend | Program.cs:247 | the value of two digit strings written together is the first scaled by 10^length of the second, plus the second |
| Digits.DropDigits | Program.cs:457 | dropping k trailing digits divides the value by 10^k |
| Digits.ParseSignedDigits | Program.cs:214 | `BigInteger.Parse` of an optional '-' followed by digits is the signed value of the digits |
| Digits.ParseIntToString | Program.cs:214 | `BigInteger.Parse` of `ToString(z)` is z |
| Digits.ParseInt32 | Program.cs:236 | `int.Parse` succeeds exactly when the big-integer parse does and the value fits 32 bits; otherwise FormatException or OverflowException |
| Digits.TruncDiv | Program.cs:230 | `BigInteger` division: the magnitude is \|a\| / \|b\| and a non-zero quotient is negative exactly when the signs differ |
| Digits.TruncDivRemainder | Program.cs:230 | the remainder of the truncating division is smaller than the divisor and zero or of the dividend's sign |
| Digits.PowMul | Program.cs:237-238 | (b^e1)^e2 = b^(e1·e2) |
| ScaledDecimal.ReadOperand | Program.cs:200-221 | reading an operand (places after the first '.', magnitude of the dot-free text) succeeds exactly when the dot-free text parses, and fails only with FormatException |
| ScaledDecimal.NumeralReads | Program.cs:214-215 | a numeral reads, and appending k zeros multiplies its magnitude by 10^k |
| ScaledDecimal.StripSign | Program.cs:243-245 | `ToString` starts with '-' exactly for a negative value, and the rest is the digits of the magnitude |
| ScaledDecimal.PointPartsFacts | Program.cs:243-247 | after padding, the integer part has no leading zero, the fraction has exactly finalP digits, and together they spell \|res\| |
| ScaledDecimal.CapAfterPoint | Program.cs:250-252 | the cap keeps at most 500 fractional digits and leaves the part before the point alone |
| ScaledDecimal.CapNoEffect | Program.cs:250-252 | with at most 500 places the cap changes nothing |
| ScaledDecimal.CapIdempotent | Program.cs:250-252 | capping twice is capping once |
| ScaledDecimal.TrimZerosAfterPoint | Program.cs:254 | because a point is always inserted, `TrimEnd('0')` only touches the fraction |
| ScaledDecimal.TrimPoint | Program.cs:254 | `TrimEnd('.')` removes the point exactly when the trimmed fraction is empty |
| ScaledDecimal.TrimWithoutPointEatsZeros | Program.cs:254 | without the point, the trim would turn "100" into "1" |
| ScaledDecimal.FormatShape | Program.cs:243-254 | the formatted text is the sign, the integer part, and "." plus the kept fraction when that is not empty |
| ScaledDecimal.KeptFractionDigits | Program.cs:250-254 | the kept fraction has at most min(finalP, 500) digits and does not end in '0' |
| ScaledDecimal.TrimZerosValue | Program.cs:254 | dropping trailing fraction zeros keeps the value: the trimmed digits scaled back by the dropped count equal the untrimmed digits |
| ScaledDecimal.CutValue | Program.cs:250-254 | cutting the fraction to c digits and trimming it is integer division by 10^(dropped digits) |
| ScaledDecimal.FormatReadsBack | Program.cs:243-254 | reading the formatted text gives the sign of res and the digits of the integer part and kept fraction, at the kept fraction's length |
| ScaledDecimal.FormatMeaning | Program.cs:243-254 | the formatted text reads back as res / 10^finalP truncated toward zero at 500 places |
| ScaledDecimal.FormatExact | Program.cs:243-254 | with at most 500 places the formatted text reads back as exactly res / 10^finalP |
| ScaledDecimal.FormatCanonical | Program.cs:243-254 | the output is never "" or "-", has at most 500 places, and with a point ends in a non-zero digit; the wrappers' collapse leaves it unchanged; it starts with '-' exactly when res < 0 |
| ScaledDecimal.FormatExactInteger | Program.cs:243-254 | m·10^p at p places formats as `ToString(m)` |
| ScaledDecimal.FormatInteger | Program.cs:243-254 | at 0 places the always-inserted point is trimmed again and the text is `ToString(res)` |
| ScaledDecimal.FormatZero | Program.cs:243-254 | zero formats as "0" at any precision |
| ScaledDecimal.NegativeZero | Program.cs:243-254 | a negative value that the cap cuts to zero formats as "-0" |
| Operators.Compute | Program.cs:209-240 | only an operator can fail, and only with an exception that operator can raise; any other character gives 0 at 0 places |
| Operators.AddSub | Program.cs:211-217 | + and - work at max(p1, p2) places and fail only with FormatException |
| Operators.Product | Program.cs:218-223 | * works at p1 + p2 places and fails only with FormatException |
| Operators.Quotient | Program.cs:224-232 | / works at exactly 500 places and fails only with the exceptions '/' can raise |
| Operators.Power | Program.cs:233-239 | ^ fails only with the exceptions '^' can raise |
| Operators.Emit | Program.cs:242-254 | the format step never fails, gives a canonical text, and gives '-' exactly for a negative value |
| Operators.ApplyBigOp | Program.cs:197-255 | a result text is canonical, errors come only from operators, and a character without a case gives "0" |
| Operators.ComputeDenotes | Program.cs:242-254 | a computed value with at most 500 places is written as text that reads back as exactly that value |
| Operators.AddExact | Program.cs:211-217 | '+' of two numerals with at most 500 places denotes the exact sum |
| Operators.SubExact | Program.cs:211-217 | '-' of two numerals with at most 500 places denotes the exact difference, left minus right |
| Operators.MulExact | Program.cs:218-223 | '*' with p1 + p2 ≤ 500 denotes the exact product |
| Operators.MulTruncates | Program.cs:218-254 | '*' with more places reads back as the product truncated toward zero at 500 places |
| Operators.AddCommutes | Program.cs:211-216 | '+' gives the same text with its operands swapped |
| Operators.MulCommutes | Program.cs:218-222 | '*' gives the same text with its operands swapped |
| Operators.UnreadableLeft | Program.cs:220-235 | for *, / and ^, an unreadable left operand throws FormatException |
| Operators.DivByZero | Program.cs:227 | a zero divisor magnitude throws DivideByZeroException |
| Operators.DivScaleOutOfRange | Program.cs:229 | p1 > 500 + p2 makes `BigInteger.Pow` throw ArgumentOutOfRangeException |
| Operators.DivTruncates | Program.cs:224-231 | otherwise the text reads back as a quotient truncated toward zero: the remainder is below \|divisor\|·10^-500 and has the dividend's sign |
| Operators.DivReal | Program.cs:229-231 | the scaled integer quotient is the real quotient truncated at 500 places |
| Operators.PowExact | Program.cs:233-238 | '^' with an int exponent e and p1·e ≤ 500 denotes the exact power |
| Operators.PowZero | Program.cs:233-238 | any readable base to the power 0 gives "1" |
| Operators.PowNegative | Program.cs:237 | a negative exponent throws ArgumentOutOfRangeException |
| Operators.PowFractionRejected | Program.cs:236 | an exponent text containing '.' throws FormatException |
| Operators.IntegerSum | Program.cs:211-217 | on integer texts '+' gives the text of the integer sum |
| Operators.IntegerDifference | Program.cs:211-217 | on integer texts '-' gives the text of the integer difference |
| Operators.IntegerProduct | Program.cs:218-223 | on integer texts '*' gives the text of the integer product |
| Operators.IntegerPower | Program.cs:233-239 | on integer texts '^' gives the text of x^e |
| Wrappers.BinaryScaled | Program.cs:966-981 | ADD and SUB work at max(p1, p2) places |
| Wrappers.BigDecBinaryOp | Program.cs:957-1018 | ADD and SUB print a result or nothing at all |
| Wrappers.BinaryAgrees | Program.cs:957-1010 | ADD and SUB print exactly `ApplyBigOp`'s '+' or '-' text, and nothing when it fails |
| Wrappers.BinaryScaledAgrees | Program.cs:966-981 | the wrappers' scaled sum and difference are `ApplyBigOp`'s |
| Wrappers.ShownAgrees | Program.cs:982-1009 | the wrappers' shared ending shows the text `ApplyBigOp`'s format step writes |
| Wrappers.Multiply | Program.cs:270-334 | MULTIPLY prints a result or "Invalid input." |
| Wrappers.MultiplyAgrees | Program.cs:270-334 | MULTIPLY prints exactly `ApplyBigOp`'s '*' text, and its message when that fails |
| Wrappers.Divide | Program.cs:338-407 | the only exception DIVIDE lets escape is ArgumentOutOfRangeException |
| Wrappers.DivideAgrees | Program.cs:338-407 | DIVIDE prints `ApplyBigOp`'s '/' text, or its own messages for bad input and a zero divisor |
| Wrappers.DivideScaledAgrees | Program.cs:349-379 | DIVIDE's scaled quotient is `ApplyBigOp`'s |
| Wrappers.UnaryScaled | Program.cs:1026-1037 | SQUARE works at 2p places and CUBE at p places, as written |
| Wrappers.BigDecUnaryOp | Program.cs:1019-1081 | SQUARE and CUBE print a result or "Invalid Input." |
| Wrappers.SquareIsMultiply | Program.cs:1019-1067 | SQUARE shows what MULTIPLY shows for the number times itself |
| Wrappers.SquareExact | Program.cs:1030-1067 | SQUARE with 2p ≤ 500 shows the exact square |
| Wrappers.CubeAsWritten | Program.cs:1030-1067 | CUBE shows m³ at p places, where m is the magnitude and p the input's places |
| Wrappers.CubeOfHalf | Program.cs:1030 | CUBE of "0.5" shows 12.5 |
| Wrappers.CorrectedUnaryScaled | Program.cs:1026-1037 | the corrected CUBE works at 3p places |
| Wrappers.CubeExact | Program.cs:1030-1067 | the corrected CUBE with 3p ≤ 500 shows the exact cube |
| Evaluator.Priority | Program.cs:186-191 | the priority is at most 3 and is positive exactly for the five operators |
| Evaluator.PrecedenceIsPreorder | Program.cs:183-195 | `HasPrecedence` is reflexive, total and transitive |
| Evaluator.OperatorLevels | Program.cs:183-195 | '^' waits only for '^'; '*' and '/' wait for everything except '+' and '-'; '+' and '-' wait for every operator |
| Evaluator.ReplacePowerClean | Program.cs:144 | after the replacements no "**" is left, and no space is added |
| Evaluator.NormalizeIdempotent | Program.cs:144 | normalising twice is normalising once |
| Evaluator.NormalizeKeeps | Program.cs:144 | a text with no space and no "**" is left unchanged |
| Evaluator.SplitJoin | Program.cs:146 | `Regex.Split` loses no character: the pieces joined give the text back |
| Evaluator.SplitAlternates | Program.cs:146 | the pieces alternate: delimiter-free pieces at even positions and single delimiters at odd ones |
| Evaluator.JoinSplit | Program.cs:146 | splitting the join of any such alternating sequence gives the sequence back |
| Evaluator.SplitPlain | Program.cs:146 | a delimiter-free text splits into itself alone |
| Evaluator.TokensOf | Program.cs:144-146 | tokenising the join of an alternating sequence without spaces and "**" gives the sequence back |
| Evaluator.NoSignedNumber | Program.cs:157 | no token longer than one character starts with '-', so the signed-number branch never runs |
| Evaluator.Reduce | Program.cs:165 | a reduction pops one operator and leaves one value fewer; it fails on an empty stack exactly when fewer than two values are stacked |
| Evaluator.CloseGroup | Program.cs:162-167 | ')' leaves fewer operators, and fails when no '(' is stacked |
| Evaluator.PushOperator | Program.cs:168-174 | after an operator token that operator is on top of the operator stack |
| Evaluator.Finish | Program.cs:177-180 | with no operators left, the result is a value exactly when one is stacked |
| Evaluator.Evaluate | Program.cs:142-181 | the stack-machine method returns the functional evaluation of the expression |
| Evaluator.CloseBracket | Program.cs:162-167 | the ')' loop computes `CloseGroup` |
| Evaluator.PushWithPrecedence | Program.cs:168-174 | the operator loop computes `PushOperator` |
| Evaluator.ReduceAll | Program.cs:177-180 | the final loop and pop compute `Finish` |
| Evaluator.LoneNumber | Program.cs:180 | a single literal comes back verbatim |
| Evaluator.OneOperator | Program.cs:165-178 | "a op b" is `ApplyBigOp(op, b, a)`: the right operand is popped first |
| Evaluator.TwoOperators | Program.cs:168-178 | "a op1 b op2 c" reduces op1 first exactly when `HasPrecedence(op2, op1)`, and otherwise reduces op2 first |
| Evaluator.Bracketed | Program.cs:161-178 | "(a op1 b) op2 c" reduces the bracket first |
| Evaluator.SumOfProduct | Program.cs:168-178 | "x+y*z" on natural numbers gives x + y·z |
| Evaluator.ProductOfSum | Program.cs:161-178 | "(x+y)*z" on natural numbers gives (x + y)·z |
| Evaluator.PowerOfPower | Program.cs:171 | "x^e^f" groups to the left: (x^e)^f |
| Evaluator.LeadingClose | Program.cs:166 | an expression starting with ')' pops an empty operator stack |
| Evaluator.LeadingMinus | Program.cs:157-180 | "-a" fails on an empty value stack |
| Evaluator.LeftoverOpen | Program.cs:177-178 | an unclosed '(' between two numbers reduces to "0" |
| Newton.FloorRoot | Program.cs:503-524 | the exact floor n-th root r, with r^n ≤ A < (r+1)^n, used as the reference for the solvers |
| Newton.StepAtLeast | Program.cs:518-520 | from any positive x the Newton step never goes below a number r with r^n ≤ A |
| Newton.StepDescends | Program.cs:518-520 | above the root, where A < x^n, the step strictly decreases |
| Newton.NearRoot | Program.cs:518-520 | at the floor root the step rises by at most 1 (n = 2, n = 3 with r ≥ 2, or r ≥ 2n − 2) |
| Newton.Landing | Program.cs:515-521 | a step from x ≥ r + 2 that lands at or below r forces r ≥ n − 1, which rules out overshooting past a small root |
| Newton.NextInv | Program.cs:515-521 | one more loop pass keeps the loop invariant and decreases the termination measure |
| Newton.Iterate | Program.cs:515-521 | the loop ends at a value of at least 1 and at least the floor root, reached by a step of at most 1 |
| Newton.Solve | Program.cs:508-523 | the same for the loop started from any positive guess |
| Roots.NthRootOf | Program.cs:503-524 | 0 for A = 0; A for n = 1; otherwise at least 1 and at least the floor root, reached by a last step of at most 1 |
| Roots.BigIntNthRoot | Program.cs:503-524 | the method with its do-while loop computes `NthRootOf` |
| Roots.ByteLength | Program.cs:945 | `ToByteArray().Length` of a non-negative value: the fewest bytes whose signed range holds it |
| Roots.SquareRootOf | Program.cs:939-956 | fails exactly for a negative input; returns n for n < 2; otherwise at least 1 and at least the floor square root, reached by a last step of at most 1 |
| Roots.SquareStep | Program.cs:952 | `(x + n / x) >> 1` is the Newton step for n = 2 |
| Roots.BigIntSquareRoot | Program.cs:939-956 | the method with its do-while loop computes `SquareRootOf` |
| Roots.SquareRootWithinOne | Program.cs:949-953 | the square root of a natural number is the floor root or one more |
| Roots.OffByOne | Program.cs:503-524 | `BigIntNthRoot(3, 2)` and `BigIntSquareRoot(3)` are 2, while the floor root is 1 |
| Roots.CubeRootOf | Program.cs:681-701 | the result has the input's sign, is zero exactly for zero, and its magnitude is at least the floor cube root and is reached by a last step of at most 1 |
| Roots.CubeStep | Program.cs:697 | `(2x + n / (x·x)) / 3` is the Newton step for n = 3 |
| Roots.BigIntCubeRoot | Program.cs:681-701 | the method computes `CubeRootOf` |
| Roots.CubeLoop | Program.cs:686-698 | the guess and the do-while loop compute the magnitude's root |
| Roots.CubeRootOdd | Program.cs:683-700 | the cube root of −n is minus the cube root of n |
| Roots.FixedPointValue | Program.cs:453-458 | after padding and splitting, the integer part is root / 10^p with no leading zero, and the fraction is exactly p digits worth root mod 10^p |
| Roots.ScaledConverges | Program.cs:441-442 | scaling by 10^(p·n) puts every non-zero radicand where the solver's loop provably ends |
| Roots.PrecisionCoversDegree | Program.cs:435-441 | 500 places cover every 32-bit degree |
| Roots.ScaledRoot | Program.cs:438-447 | the root of \|A\|·10^(p·n) is at least its floor root and, for n ≥ 2, is reached by a last step of at most 1; for n = 1 it is exactly \|A\|·10^p; 0 for a zero radicand (`Roots.ZeroRadicand`) |
| Roots.RootAt | Program.cs:432-464 | imaginary exactly for an even root of a negative A; '-' before the integer part exactly for an odd root of a negative A; a p-digit fraction of the scaled root |
| Roots.Root | Program.cs:424-428 | the Root command runs exactly when A parses as a BigInteger, n as an int, and n > 0 |
| Roots.ScaledSquareRoot | Program.cs:541-553 | the root of \|number\|·10^(2p) is its floor root or one more, reached by a last step of at most 1; 0 for a zero radicand (`Roots.ZeroRadicand`) |
| Roots.SquareRootAt | Program.cs:540-565 | imaginary exactly for a negative input; the integer part and p-digit fraction of the scaled root |
| Roots.SquareRoot | Program.cs:532-537 | the SquareRoot command runs exactly when the input parses |
| Roots.ScaledCubeRoot | Program.cs:631-636 | the root of \|number\|·10^(3p) is at least its floor cube root and is reached by a last step of at most 1; 0 for a zero radicand (`Roots.ZeroRadicand`) |
| Roots.ZeroRadicand | Program.cs:503-506 | a zero radicand gives 0 from the n-th, square and cube root solvers (each returns 0 before any step, lines 505, 942 and 683) |
| Roots.CubeRootAt | Program.cs:631-662 | never imaginary; '-' before the integer part exactly for a negative input; a p-digit fraction of the scaled root |
| Roots.CubeRoot | Program.cs:609-614 | the CubeRoot command runs exactly when the input parses |
| Factorials.Fact | Program.cs:829-833 | n! is at least 1 |
| Factorials.Factorial | Program.cs:795-833 | n outside 0..100000 is refused; otherwise the loop's product is n! |
| Factorials.FactDivides | Program.cs:829-833 | every k in 1..n divides n! |
| Factorials.FactMonotone | Program.cs:829-833 | n! never decreases as n grows |

## Left out

- Console I/O is not modelled:
  - the menu loop, help and theme colours;
  - the prompts and `ReadLine`;
  - the `GetInt` and `GetDouble` retry loops;
  - the `Trim` of wrapper inputs, because the wrappers are modelled from the trimmed texts on.
- Display strings are not modelled: the elided and scientific-notation result lines, because they are presentation only.
- The `File.WriteAllText` saves are not modelled, because they are file I/O.
- Floating point is not modelled, because it is outside the integer engine:
  - Factorial's Stirling digit prediction;
  - the confirmation gate built on that prediction;
  - CubeRoot's complex display, which uses 0.866.
- The easter eggs (secret constants, credits, version, roster, self-destruct) are not modelled. They use clocks, sleeps and unordered sets and do no engine arithmetic.
- `RunTestSuite` is not modelled, because it only prints. Its expressions are covered by lemmas over all operands:
  - `Evaluator.SumOfProduct`;
  - `Evaluator.ProductOfSum`;
  - `Evaluator.PowerOfPower`;
  - `Evaluator.TwoOperators`.
- Roots.Root: does not model the 32-bit overflow of `precision * n` in `BigInteger.Pow(10, precision * n)`, which happens for n above 4294967. The model uses the mathematical product.
- Operators.Power: does not model the 32-bit wrap-around of `finalP = p1 * exponent` (Program.cs:238). The model uses the mathematical product `p1·e`. The two differ when p1·e exceeds 2^31 − 1. `BigInteger.Pow` still returns at once when the base's magnitude is 0 or 1, so the source then formats at the wrapped precision:
  - `"0.001^1431655766"`: 3 · 1431655766 wraps to 2, and the source gives `"0.01"`; the model gives `"0"`.
  - `"0.01^1500000000"`: 2 · 1500000000 wraps to −1294967296, and `r.Insert` at index 1294967297 (Program.cs:247) throws ArgumentOutOfRangeException; the model gives `"0"`.
  - `500 + p2 - p1` (Program.cs:229) cannot wrap, because a .NET string is shorter than 2^31 − 501 characters.
- Roots.BigIntNthRoot: requires A = 0 or `Newton.Converges(A, n)`. That condition is n ≤ 3 or (2n−2)^n ≤ A, and termination is proved under it. Every call from the Root command meets it (`Roots.ScaledConverges`). A takes a `nat`, since the command passes \|A\|·10^(500n).
- Roots.SquareRootOf, Roots.CubeRootOf and Roots.NthRootOf: claim at least the floor root, and within one for square roots. They do not claim the exact floor root, because the \|Δ\| ≤ 1 stopping rule allows an answer one too high (`Roots.OffByOne`).
- Roots.ScaledCubeRoot and Roots.ScaledRoot: likewise claim at least the floor root of the scaled radicand and a last step of at most 1, not the exact floor root, for the same reason. ScaledRoot is exact for n = 1. For a zero radicand all three scaled roots are exactly 0 (`Roots.ZeroRadicand`).
- Evaluator.Evaluate: models `char.IsDigit` (Program.cs:157) as the ASCII digits '0'..'9'. The source also pushes a token that starts with any other Unicode decimal digit, without parsing it, and the model skips such a token. `BigInteger.Parse` rejects those digits only when the token reaches `ApplyBigOp`, so the two differ:
  - `"٣"` (Arabic-Indic three): the source returns `"٣"` unchanged (Program.cs:180); the model fails with an empty stack.
  - `"2(٣)"`: the source returns `"٣"`, the top value; the model returns `"2"`.
  - `"٣+1"`: the source throws FormatException from `ApplyBigOp`; the model fails with an empty stack.
- The Root, SquareRoot and CubeRoot commands are modelled up to the integer part, the fraction and the imaginary flag. The printed lines built from these are not.

## Findings

| source | as written | input that shows it | evidently intended | confidence | as-written member | corrected member |
|---|---|---|---|---|---|---|
| Program.cs:1030 | CUBE keeps the input's decimal places as the result's precision, although the magnitude is cubed | "0.5": the magnitude 5 cubes to 125, which is shown at 1 place as 12.5 | three times the input's places, the way SQUARE doubles them, giving 0.125 | not executed | Wrappers.CubeOfHalf | Wrappers.CubeExact |
