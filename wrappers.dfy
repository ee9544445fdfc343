/** The integer and format logic of the console wrappers that repeat
    ApplyBigOp's work on trimmed input texts: BigDecBinaryOp (ADD, SUB),
    Multiply, Divide and BigDecUnaryOp (SQUARE, CUBE). Each computes a
    scaled integer, formats it like ApplyBigOp's step 3 and then turns ""
    and "-" into "0". What a wrapper shows is a Display. */
module Wrappers {
  import opened Results
  import opened Digits
  import opened Text
  import opened ScaledDecimal
  import opened Operators

  /** What a wrapper shows: the result line, one of its own messages,
      nothing at all, or an exception that Main's handler reports. */
  datatype Display =
    | Printed(text: string)
    | InvalidMessage
    | ZeroDivisorMessage
    | Silent
    | Raised(error: Error)

  /** The ADD and SUB menu entries (Program.cs:256-268). */
  datatype BinaryMode = AddMode | SubMode

  /** The SQUARE and CUBE menu entries (Program.cs:787-788). */
  datatype UnaryMode = SquareMode | CubeMode

  /** d prints a text that reads back as x. */
  predicate Shows(d: Display, x: real) {
    d.Printed? && Readable(d.text) && Val(d.text) == x
  }

  /** A wrapper that prints ApplyBigOp's text when it has one and shows
      `failure` otherwise. */
  function AsDisplay(r: Result<string>, failure: Display): Display {
    match r
    case Ok(t) => Printed(t)
    case Err(_) => failure
  }

  /** The wrappers' shared ending: format like ApplyBigOp's step 3, then
      turn "" and "-" into "0"; a failed parse shows `failure`. */
  function Shown(r: Result<Scaled>, failure: Display): Display {
    match r
    case Ok(v) => Printed(Collapse(FormatScaled(v.mag, v.places)))
    case Err(_) => failure
  }

  /** Lines 966-980: both texts are padded to max(p1, p2) places, as
      ApplyBigOp does for + and -, and the operation is applied. */
  function BinaryScaled(mode: BinaryMode, s1: string, s2: string): (r: Result<Scaled>)
    ensures r.Ok? ==> r.value.places == Max(Places(s1), Places(s2))
  {
    var p1, p2 := Places(s1), Places(s2);
    var maxPlaces := Max(p1, p2);
    match ParseInteger(Remove(s1, '.') + Zeros(maxPlaces - p1))
    case Err(e) => Err(e)
    case Ok(n1) =>
      match ParseInteger(Remove(s2, '.') + Zeros(maxPlaces - p2))
      case Err(e) => Err(e)
      case Ok(n2) => Ok(Scaled(if mode == AddMode then n1 + n2 else n1 - n2, maxPlaces))
  }

  /** Lines 957-1017: when either text fails to parse, nothing is printed. */
  function BigDecBinaryOp(mode: BinaryMode, s1: string, s2: string): (d: Display)
    ensures d.Printed? || d == Silent
  {
    Shown(BinaryScaled(mode, s1, s2), Silent)
  }

  /** Lines 278-293: magnitudes multiply and places add. */
  function MultiplyScaled(s1: string, s2: string): (r: Result<Scaled>)
    ensures r.Ok? ==> r.value.places == Places(s1) + Places(s2)
  {
    match ReadOperand(s1)
    case Err(e) => Err(e)
    case Ok(u) =>
      match ReadOperand(s2)
      case Err(e) => Err(e)
      case Ok(v) => Ok(Scaled(u.mag * v.mag, u.places + v.places))
  }

  /** Lines 270-330: an unreadable operand prints "Invalid input.". */
  function Multiply(s1: string, s2: string): (d: Display)
    ensures d.Printed? || d == InvalidMessage
  {
    Shown(MultiplyScaled(s1, s2), InvalidMessage)
  }

  /** Lines 340-375: a zero divisor is reported before the scaling, whose
      negative power of ten makes BigInteger.Pow throw. */
  function DivideScaled(s1: string, s2: string): (r: Result<Scaled>)
    ensures r.Ok? ==> r.value.places == DIV_PLACES
  {
    match ReadOperand(s1)
    case Err(e) => Err(e)
    case Ok(u) =>
      match ReadOperand(s2)
      case Err(e) => Err(e)
      case Ok(v) =>
        if v.mag == 0 then Err(DivideByZero)
        else if DIV_PLACES + v.places - u.places < 0 then Err(ArgumentOutOfRange)
        else Ok(Scaled(TruncDiv(u.mag * Pow(10, DIV_PLACES + v.places - u.places), v.mag), DIV_PLACES))
  }

  /** Lines 332-400: a zero divisor prints its own message and returns;
      BigInteger.Pow's exception is not caught here and reaches Main's
      handler; the quotient is formatted without the cap. */
  function Divide(s1: string, s2: string): (d: Display)
    ensures d.Raised? ==> d.error == ArgumentOutOfRange
  {
    match DivideScaled(s1, s2)
    case Ok(v) => Printed(Collapse(TrimEnd(TrimEnd(InsertPoint(v.mag, v.places), '0'), '.')))
    case Err(FormatError) => InvalidMessage
    case Err(DivideByZero) => ZeroDivisorMessage
    case Err(e) => Raised(e)
  }

  /** Lines 1026-1038 as written: SQUARE doubles the input's places, but
      CUBE keeps them as they are. */
  function UnaryScaled(mode: UnaryMode, s: string): (r: Result<Scaled>)
    ensures r.Ok? ==> r.value.places == if mode == SquareMode then Places(s) * 2 else Places(s)
  {
    var inputPlaces := Places(s);
    var finalPrecision := if mode == SquareMode then inputPlaces * 2 else inputPlaces;
    match ReadOperand(s)
    case Err(e) => Err(e)
    case Ok(u) =>
      Ok(Scaled(if mode == SquareMode then u.mag * u.mag else u.mag * u.mag * u.mag, finalPrecision))
  }

  /** Lines 1019-1081: an unreadable number prints "Invalid Input.". */
  function BigDecUnaryOp(mode: UnaryMode, s: string): (d: Display)
    ensures d.Printed? || d == InvalidMessage
  {
    Shown(UnaryScaled(mode, s), InvalidMessage)
  }

  /** UnaryScaled with the precision a cube needs: three times the input's
      places. */
  function CorrectedUnaryScaled(mode: UnaryMode, s: string): (r: Result<Scaled>)
    ensures r.Ok? ==> r.value.places == Places(s) * (if mode == SquareMode then 2 else 3)
  {
    var inputPlaces := Places(s);
    var finalPrecision := if mode == SquareMode then inputPlaces * 2 else inputPlaces * 3;
    match ReadOperand(s)
    case Err(e) => Err(e)
    case Ok(u) =>
      Ok(Scaled(if mode == SquareMode then u.mag * u.mag else u.mag * u.mag * u.mag, finalPrecision))
  }

  function CorrectedUnaryOp(mode: UnaryMode, s: string): (d: Display)
    ensures d.Printed? || d == InvalidMessage
  {
    Shown(CorrectedUnaryScaled(mode, s), InvalidMessage)
  }

  /** A scaled result the engine formats is shown by a wrapper as the
      engine's text: Collapse leaves a formatted text alone. */
  lemma {:induction false} ShownAgrees(r: Result<Scaled>, failure: Display)
    ensures Shown(r, failure) == AsDisplay(if r.Ok? then Emit(r.value.mag, r.value.places) else Err(r.error), failure)
  {
    if r.Ok? {
      FormatCanonical(r.value.mag, r.value.places);
    }
  }

  /** ADD and SUB print exactly the text the expression engine computes
      for s1 + s2 and s1 - s2, and print nothing exactly when it fails. */
  lemma {:induction false} BinaryAgrees(mode: BinaryMode, s1: string, s2: string)
    ensures BigDecBinaryOp(mode, s1, s2) ==
            AsDisplay(ApplyBigOp(if mode == AddMode then '+' else '-', s2, s1), Silent)
  {
    BinaryScaledAgrees(mode, s1, s2);
    ShownAgrees(BinaryScaled(mode, s1, s2), Silent);
  }

  lemma {:induction false} BinaryScaledAgrees(mode: BinaryMode, s1: string, s2: string)
    ensures BinaryScaled(mode, s1, s2) == Compute(if mode == AddMode then '+' else '-', s2, s1)
  {}

  /** MULTIPLY prints exactly the engine's product text, and "Invalid
      input." exactly when the engine fails. */
  lemma {:induction false} MultiplyAgrees(s1: string, s2: string)
    ensures Multiply(s1, s2) == AsDisplay(ApplyBigOp('*', s2, s1), InvalidMessage)
  {
    assert MultiplyScaled(s1, s2) == Compute('*', s2, s1);
    ShownAgrees(MultiplyScaled(s1, s2), InvalidMessage);
  }

  /** How DIVIDE shows each outcome of the engine's '/'. */
  function DivisionShown(r: Result<string>): Display {
    match r
    case Ok(t) => Printed(t)
    case Err(FormatError) => InvalidMessage
    case Err(DivideByZero) => ZeroDivisorMessage
    case Err(e) => Raised(e)
  }

  /** DIVIDE leaves out the cap, which cannot change a quotient with
      exactly 500 places, so it prints the engine's quotient text; each
      failure is shown in its own way. */
  lemma {:induction false} DivideAgrees(s1: string, s2: string)
    ensures Divide(s1, s2) == DivisionShown(ApplyBigOp('/', s2, s1))
  {
    DivideScaledAgrees(s1, s2);
    var r := DivideScaled(s1, s2);
    if r.Ok? {
      CapNoEffect(r.value.mag, DIV_PLACES);
      FormatCanonical(r.value.mag, DIV_PLACES);
    }
  }

  lemma {:induction false} DivideScaledAgrees(s1: string, s2: string)
    ensures DivideScaled(s1, s2) == Compute('/', s2, s1)
  {}

  /** SQUARE is MULTIPLY of a number by itself. */
  lemma {:induction false} SquareIsMultiply(s: string)
    ensures BigDecUnaryOp(SquareMode, s) == Multiply(s, s)
  {
    assert UnaryScaled(SquareMode, s) == MultiplyScaled(s, s) by {
      assert Places(s) * 2 == Places(s) + Places(s);
    }
  }

  /** SQUARE is exact while twice the input's places fit in the cap. */
  lemma {:induction false} SquareExact(s: string)
    requires Readable(s) && Places(s) * 2 <= CAP
    ensures Shows(BigDecUnaryOp(SquareMode, s), Val(s) * Val(s))
  {
    SquareIsMultiply(s);
    MultiplyAgrees(s, s);
    MulExact(s, s);
  }

  /** A scaled result with at most CAP places is shown as a text that
      reads back as its value. */
  lemma {:induction false} ShownExact(r: Result<Scaled>, failure: Display, x: real)
    requires r.Ok? && r.value.places <= CAP && HasValue(r.value, x)
    ensures Shows(Shown(r, failure), x)
  {
    ShownAgrees(r, failure);
    EmitExact(r.value.mag, r.value.places);
  }

  /** As written, CUBE reads m^3 at p places: its value is the cube times
      10^(2p). */
  lemma {:induction false} CubeAsWritten(s: string)
    requires Readable(s) && Places(s) <= CAP
    ensures var m := ReadOperand(s).value.mag;
            Shows(BigDecUnaryOp(CubeMode, s), Value(Scaled(m * m * m, Places(s))))
  {
    var m := ReadOperand(s).value.mag;
    var r := UnaryScaled(CubeMode, s);
    assert r == Ok(Scaled(m * m * m, Places(s)));
    ShownExact(r, InvalidMessage, Value(Scaled(m * m * m, Places(s))));
  }

  /** "0.5" cubed is shown as 12.5, where 0.125 is meant. */
  lemma {:induction false} CubeOfHalf()
    ensures Readable("0.5") && Val("0.5") == 0.5
    ensures Shows(BigDecUnaryOp(CubeMode, "0.5"), 12.5)
  {
    HalfReads();
    CubeOfHalfAt("0.5");
  }

  /** Any text read as 5 at one place, such as "0.5", cubes to 12.5. */
  lemma {:induction false} CubeOfHalfAt(s: string)
    requires ReadOperand(s) == Ok(Scaled(5, 1)) && Places(s) == 1
    ensures Readable(s) && Val(s) == 0.5
    ensures Shows(BigDecUnaryOp(CubeMode, s), 12.5)
  {
    var r := UnaryScaled(CubeMode, s);
    assert r == Ok(Scaled(125, 1));
    Tenths(5);
    Tenths(125);
    ShownExact(r, InvalidMessage, 12.5);
  }

  lemma {:induction false} Tenths(m: int)
    ensures Value(Scaled(m, 1)) == m as real / 10.0
  {
    assert Pow(10, 1) == 10;
  }

  lemma {:induction false} HalfReads()
    ensures ReadOperand("0.5") == Ok(Scaled(5, 1)) && Places("0.5") == 1
  {
    assert "0.5" == ['0', '.', '5'];
    OneDecimal('0', '5');
    TwoDigits('0', '5');
  }

  /** A digit, a point and a digit: one place, and the point removed. */
  lemma {:induction false} OneDecimal(a: char, b: char)
    requires IsDigit(a) && IsDigit(b)
    ensures Remove([a, '.', b], '.') == [a, b] && Places([a, '.', b]) == 1
  {
    var s := [a, '.', b];
    assert s[1..] == ['.', b] && s[1..][1..] == [b] && [b][1..] == [];
    assert IndexOf(s, '.') == 1;
    assert Remove([b], '.') == [b];
    assert Remove(s[1..], '.') == [b];
  }

  /** Two digits parse as their two-digit value. */
  lemma {:induction false} TwoDigits(a: char, b: char)
    requires IsDigit(a) && IsDigit(b)
    ensures ParseInteger([a, b]) == Ok(10 * DigitValue(a) + DigitValue(b))
  {
    var d := [a, b];
    assert AllDigits(d) by { assert forall i | 0 <= i < |d| :: IsDigit(d[i]); }
    ParseSignedDigits(false, d);
    assert (if false then "" else "") + d == d;
    assert d[..1] == [a] && [a][..0] == [];
    assert DigitsValue([a]) == DigitValue(a);
    assert DigitsValue(d) == 10 * DigitsValue([a]) + DigitValue(b);
  }

  function Cube(x: real): real { x * x * x }

  /** With 3p places, CUBE is exact while they fit in the cap. */
  lemma {:induction false} CubeExact(s: string)
    requires Readable(s) && Places(s) * 3 <= CAP
    ensures Shows(CorrectedUnaryOp(CubeMode, s), Cube(Val(s)))
  {
    var u := ReadOperand(s).value;
    var r := CorrectedUnaryScaled(CubeMode, s);
    assert r == Ok(Scaled(u.mag * u.mag * u.mag, u.places * 3));
    CubeValue(u);
    ShownExact(r, InvalidMessage, Cube(Value(u)));
    assert CorrectedUnaryOp(CubeMode, s) == Shown(r, InvalidMessage);
    assert Val(s) == Value(u);
  }

  lemma {:induction false} CubeValue(u: Scaled)
    ensures HasValue(Scaled(u.mag * u.mag * u.mag, u.places * 3), Cube(Value(u)))
  {
    ValueMul(u.mag, u.mag, u.places, u.places);
    ValueMul(u.mag * u.mag, u.mag, u.places + u.places, u.places);
    assert u == Scaled(u.mag, u.places);
  }
}
