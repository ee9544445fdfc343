/** Scaled decimals: a decimal text read as (integer magnitude, fractional
    digit count), and the shared step that writes an integer result back as
    text with its point re-inserted, the 500-digit cap applied and trailing
    zeros trimmed (Program.cs:200-203, 243-254). */
module ScaledDecimal {
  import opened Results
  import opened Text
  import opened Digits

  /** The process-wide cap on fractional digits. */
  const CAP: nat := 500

  function Min(a: int, b: int): int { if a < b then a else b }

  /** The fractional-digit count ApplyBigOp gives an operand: the number of
      characters after its first '.', or 0 when it has none. */
  function Places(s: string): nat {
    var dot := IndexOf(s, '.');
    if dot < 0 then 0 else |s| - dot - 1
  }

  /** An operand as (magnitude, places): the value is mag * 10^-places. */
  datatype Scaled = Scaled(mag: int, places: nat)

  /** The number a scaled pair stands for. */
  function Value(v: Scaled): real {
    v.mag as real / Pow(10, v.places) as real
  }

  /** Appending p - k zeros to the magnitude and moving from k to p places
      leaves the value alone. */
  lemma {:induction false} ScaleValue(m: int, k: nat, p: nat)
    requires k <= p
    ensures Value(Scaled(m * Pow(10, p - k), p)) == Value(Scaled(m, k))
  {
    var e := p - k;
    PowAdd(10, k, e);
    assert k + e == p;
    IntCancel(m, Pow(10, k), Pow(10, e), Pow(10, p));
  }

  lemma {:induction false} IntCancel(m: int, a: int, b: int, ab: int)
    requires a > 0 && b > 0 && ab == a * b
    ensures (m * b) as real / ab as real == m as real / a as real
  {
    assert (m * b) as real == m as real * b as real;
    assert ab as real == a as real * b as real;
    RealCancel(m as real, a as real, b as real);
  }

  /** Values at a common scale add and subtract through their magnitudes. */
  lemma {:induction false} ValueAdd(a: int, b: int, p: nat)
    ensures Value(Scaled(a + b, p)) == Value(Scaled(a, p)) + Value(Scaled(b, p))
    ensures Value(Scaled(a - b, p)) == Value(Scaled(a, p)) - Value(Scaled(b, p))
  {
    RealSplit(a as real, b as real, Pow(10, p) as real);
  }

  /** Magnitudes multiply while their places add. */
  lemma {:induction false} ValueMul(a: int, b: int, p: nat, q: nat)
    ensures Value(Scaled(a * b, p + q)) == Value(Scaled(a, p)) * Value(Scaled(b, q))
  {
    PowAdd(10, p, q);
    IntProduct(a, b, Pow(10, p), Pow(10, q));
  }

  lemma {:induction false} IntProduct(a: int, b: int, u: int, v: int)
    requires u > 0 && v > 0
    ensures (a * b) as real / (u * v) as real == (a as real / u as real) * (b as real / v as real)
  {
    assert (a * b) as real == a as real * b as real;
    assert (u * v) as real == u as real * v as real;
    RealProduct(a as real, b as real, u as real, v as real);
  }

  /** x raised to a natural power, over the reals. */
  function RPow(x: real, e: nat): real {
    if e == 0 then 1.0 else x * RPow(x, e - 1)
  }

  /** Raising a magnitude to e multiplies its places by e. */
  lemma {:induction false} ValuePow(m: int, p: nat, e: nat)
    ensures Value(Scaled(Pow(m, e), p * e)) == RPow(Value(Scaled(m, p)), e)
  {
    if e > 0 {
      ValuePow(m, p, e - 1);
      ValuePowStep(m, p, e);
    }
  }

  lemma {:induction false} ValuePowStep(m: int, p: nat, e: nat)
    requires e > 0
    requires Value(Scaled(Pow(m, e - 1), p * (e - 1))) == RPow(Value(Scaled(m, p)), e - 1)
    ensures Value(Scaled(Pow(m, e), p * e)) == RPow(Value(Scaled(m, p)), e)
  {
    assert p * e == p + p * (e - 1);
    ValueMul(m, Pow(m, e - 1), p, p * (e - 1));
  }

  lemma {:induction false} RealSplit(a: real, b: real, d: real)
    requires d > 0.0
    ensures (a + b) / d == a / d + b / d
    ensures (a - b) / d == a / d - b / d
  {}

  lemma {:induction false} RealProduct(a: real, b: real, u: real, v: real)
    requires u > 0.0 && v > 0.0
    ensures (a * b) / (u * v) == (a / u) * (b / v)
  {}

  lemma {:induction false} RealCancel(m: real, a: real, b: real)
    requires a > 0.0 && b > 0.0
    ensures (m * b) / (a * b) == m / a
  {}

  /** How ApplyBigOp reads an operand: the text with EVERY '.' removed is
      parsed by BigInteger.Parse, and the places count the characters after
      the FIRST '.'. So "1.2.3" reads as 123 with 3 places. */
  function ReadOperand(s: string): (r: Result<Scaled>)
    ensures r.Ok? <==> ParseInteger(Remove(s, '.')).Ok?
    ensures r.Err? ==> r.error == FormatError
  {
    match ParseInteger(Remove(s, '.'))
    case Ok(m) => Ok(Scaled(m, Places(s)))
    case Err(_) => Err(FormatError)
  }

  /** A decimal literal: an optional '-', then digits and dots, at least one digit. */
  predicate Numeral(s: string) {
    var body := if |s| > 0 && s[0] == '-' then s[1..] else s;
    DigitsAndDots(body) && Remove(body, '.') != []
  }

  predicate DigitsAndDots(s: string) {
    s == [] || ((IsDigit(s[0]) || s[0] == '.') && DigitsAndDots(s[1..]))
  }

  lemma {:induction false} RemoveDotsOfDigits(s: string)
    requires DigitsAndDots(s)
    ensures AllDigits(Remove(s, '.'))
  {
    if s != [] {
      RemoveDotsOfDigits(s[1..]);
    }
  }

  /** A literal reads successfully, and padding its dot-free text with k
      zeros (as + and - do to align) multiplies its magnitude by 10^k. */
  lemma {:induction false} NumeralReads(s: string, k: nat)
    requires Numeral(s)
    ensures ReadOperand(s).Ok?
    ensures ParseInteger(Remove(s, '.') + Zeros(k)) == Ok(ReadOperand(s).value.mag * Pow(10, k))
  {
    var neg := |s| > 0 && s[0] == '-';
    var sign := if neg then "-" else "";
    var d := Remove(if neg then s[1..] else s, '.');
    NumeralText(s);
    assert ReadOperand(s) == Ok(Scaled(Signed(neg, DigitsValue(d)), Places(s))) by {
      ParseSignedDigits(neg, d);
    }
    assert AllDigits(d + Zeros(k)) && DigitsValue(d + Zeros(k)) == DigitsValue(d) * Pow(10, k) by {
      ShiftByZeros(d, k);
    }
    assert ParseInteger(Remove(s, '.') + Zeros(k)) == Ok(Signed(neg, DigitsValue(d + Zeros(k)))) by {
      Assoc(sign, d, Zeros(k));
      ParseSignedDigits(neg, d + Zeros(k));
    }
    SignedMul(neg, DigitsValue(d), Pow(10, k));
  }

  /** Without its dots, a literal is its sign and a non-empty digit run. */
  lemma {:induction false} NumeralText(s: string)
    requires Numeral(s)
    ensures var neg := |s| > 0 && s[0] == '-';
            var d := Remove(if neg then s[1..] else s, '.');
            AllDigits(d) && d != [] && Remove(s, '.') == (if neg then "-" else "") + d
  {
    var neg := |s| > 0 && s[0] == '-';
    var sign := if neg then "-" else "";
    var body := if neg then s[1..] else s;
    assert s == sign + body;
    RemoveConcat(sign, body, '.');
    RemoveDotsOfDigits(body);
  }

  function SignOf(res: int): string { if res < 0 then "-" else "" }

  /** The digits of |res|, left-padded with zeros to at least p + 1 digits
      (lines 243-245). */
  function Padded(res: int, p: nat): (w: string)
    ensures |w| >= p + 1
  {
    PadLeft(NatToDigits(Abs(res)), p + 1, '0')
  }

  /** What stands before the inserted '.': all but the last p padded digits. */
  function IntPart(res: int, p: nat): string {
    var w := Padded(res, p);
    w[..|w| - p]
  }

  /** What stands after the inserted '.': the last p padded digits. */
  function FracPart(res: int, p: nat): string {
    var w := Padded(res, p);
    w[|w| - p..]
  }

  lemma {:induction false} PadSplit(u: string, w: string, p: nat)
    requires AllDigits(u) && |u| >= 1 && (u[0] == '0' ==> u == "0")
    requires w == PadLeft(u, p + 1, '0')
    ensures AllDigits(w) && |w| >= p + 1 && DigitsValue(w) == DigitsValue(u)
    ensures w[0] == '0' ==> |w| == p + 1
  {
    if |u| < p + 1 {
      LeadingZeros(p + 1 - |u|, u);
    }
  }

  lemma {:induction false} SplitDigits(w: string, k: nat)
    requires AllDigits(w) && k <= |w|
    ensures AllDigits(w[..k]) && AllDigits(w[k..])
    ensures w[..k] + w[k..] == w
  {}

  /** The integer part is never empty and has no leading zero, the fraction
      has exactly p digits, and together they denote |res|. */
  lemma {:induction false} PointPartsFacts(res: int, p: nat)
    ensures var ip, fp := IntPart(res, p), FracPart(res, p);
            AllDigits(ip) && AllDigits(fp) && |ip| >= 1 && |fp| == p &&
            (ip[0] == '0' ==> ip == "0") &&
            AllDigits(ip + fp) && DigitsValue(ip + fp) == Abs(res)
  {
    var u := NatToDigits(Abs(res));
    var w := Padded(res, p);
    assert DigitsValue(u) == Abs(res) by {
      DigitsRoundTrip(Abs(res));
    }
    PadSplit(u, w, p);
    SplitDigits(w, |w| - p);
    var ip := IntPart(res, p);
    assert ip[0] == '0' ==> ip == "0" by {
      if ip[0] == '0' {
        assert |ip| == 1;
      }
    }
  }

  /** Lines 243-247: the sign, the integer part, '.', and the fraction; the
      '.' is inserted even when p is 0. Removing a leading '-' from
      BigInteger.ToString's text leaves the digits of |res| (StripSign). */
  function InsertPoint(res: int, p: nat): string {
    SignOf(res) + IntPart(res, p) + "." + FracPart(res, p)
  }

  /** BigInteger.ToString's text is the sign, then the digits of |res|. */
  lemma {:induction false} StripSign(res: int)
    ensures var r := IntToString(res);
            |r| > 0 &&
            (r[0] == '-' <==> res < 0) &&
            (if r[0] == '-' then r[1..] else r) == NatToDigits(Abs(res))
  {
    var u := NatToDigits(Abs(res));
    if res < 0 {
      assert ("-" + u)[1..] == u;
    } else {
      assert IsDigit(u[0]);
    }
  }

  /** Lines 249-252: keep at most CAP characters after the first '.'. */
  function Cap(s: string): string {
    var dot := IndexOf(s, '.');
    if dot != -1 && |s| - dot - 1 > CAP then s[..dot + CAP + 1] else s
  }

  /** Lines 243-254: the formatted text of the scaled integer `res` with `p`
      fractional digits. */
  function FormatScaled(res: int, p: nat): string {
    TrimEnd(TrimEnd(Cap(InsertPoint(res, p)), '0'), '.')
  }

  /** The empty/"-" collapse the console wrappers add after the trim. */
  function Collapse(s: string): string {
    if s == "" || s == "-" then "0" else s
  }

  lemma {:induction false} IndexOfAfter(a: string, b: string, c: char)
    requires c !in a
    ensures IndexOf(a + [c] + b, c) == |a|
  {
    var s := a + [c] + b;
    assert s[..|a|] == a;
    FirstAt(s, c, |a|);
  }

  /** Capping a text with one '.' cuts its fraction to CAP characters. */
  lemma {:induction false} CapAfterPoint(pre: string, f: string)
    requires '.' !in pre
    ensures Cap(pre + "." + f) == pre + "." + f[..Min(|f|, CAP)]
  {
    IndexOfAfter(pre, f, '.');
    if |f| > CAP {
      assert (pre + "." + f)[..|pre| + CAP + 1] == pre + "." + f[..CAP];
    } else {
      assert f[..|f|] == f;
    }
  }

  /** The '.' stops TrimEnd('0') from reaching the integer part. */
  lemma {:induction false} TrimZerosAfterPoint(pre: string, f: string)
    ensures TrimEnd(pre + "." + f, '0') == pre + "." + TrimEnd(f, '0')
  {
    TrimEndStops(pre + ".", f, '0');
  }

  /** TrimEnd('.') removes the '.' exactly when no fraction digit is left. */
  lemma {:induction false} TrimPoint(pre: string, ft: string)
    requires pre != [] && pre[|pre| - 1] != '.'
    requires ft == [] || ft[|ft| - 1] != '.'
    ensures TrimEnd(pre + "." + ft, '.') == pre + (if ft == [] then [] else "." + ft)
  {
    if ft == [] {
      assert pre + "." + ft == pre + ".";
      assert (pre + ".")[..|pre|] == pre;
    } else {
      assert pre + "." + ft == pre + ("." + ft);
    }
  }

  lemma {:induction false} DigitsNoPoint(s: string)
    requires AllDigits(s)
    ensures '.' !in s
    ensures s == [] || s[|s| - 1] != '.'
  {}

  /** The fraction digits FormatScaled keeps: cut to CAP, trailing zeros trimmed. */
  function KeptFraction(res: int, p: nat): string {
    TrimEnd(FracPart(res, p)[..Min(p, CAP)], '0')
  }

  lemma {:induction false} KeptFractionDigits(res: int, p: nat)
    ensures var ft := KeptFraction(res, p);
            AllDigits(ft) && |ft| <= Min(p, CAP) && (ft == [] || ft[|ft| - 1] != '0')
  {
    assert AllDigits(FracPart(res, p)) && |FracPart(res, p)| == p by {
      PointPartsFacts(res, p);
    }
    TrimmedDigits(FracPart(res, p), Min(p, CAP));
  }

  lemma {:induction false} TrimmedDigits(f: string, c: nat)
    requires AllDigits(f) && c <= |f|
    ensures var ft := TrimEnd(f[..c], '0');
            AllDigits(ft) && |ft| <= c && (ft == [] || ft[|ft| - 1] != '0')
  {
    var fc := f[..c];
    var ft := TrimEnd(fc, '0');
    TrimEndFacts(fc, '0');
    assert forall i | 0 <= i < |ft| :: ft[i] == fc[i] == f[i];
  }

  /** The shape of every formatted result: sign, integer part, and '.' plus
      the kept fraction only when that is non-empty. */
  lemma {:induction false} FormatShape(res: int, p: nat)
    ensures var ft := KeptFraction(res, p);
            FormatScaled(res, p) == SignOf(res) + IntPart(res, p) + (if ft == [] then [] else "." + ft)
  {
    var ip, fp := IntPart(res, p), FracPart(res, p);
    var pre := SignOf(res) + ip;
    var ft := KeptFraction(res, p);
    PointPartsFacts(res, p);
    KeptFractionDigits(res, p);
    DigitsNoPoint(ip);
    DigitsNoPoint(ft);
    assert '.' !in pre;
    assert pre[|pre| - 1] == ip[|ip| - 1];
    CapAfterPoint(pre, fp);
    TrimZerosAfterPoint(pre, fp[..Min(p, CAP)]);
    TrimPoint(pre, ft);
  }

  /** Dropping trailing zeros from a digit string: its value shifts down. */
  lemma {:induction false} TrimZerosValue(ip: string, fc: string)
    requires AllDigits(ip) && AllDigits(fc)
    ensures var ft := TrimEnd(fc, '0');
            AllDigits(ip + ft) &&
            DigitsValue(ip + ft) * Pow(10, |fc| - |ft|) == DigitsValue(ip + fc)
  {
    var ft := TrimEnd(fc, '0');
    TrimEndSplit(fc, '0');
    assert fc == ft + Zeros(|fc| - |ft|);
    assert AllDigits(ft) by {
      assert forall i | 0 <= i < |ft| :: ft[i] == fc[i];
    }
    DigitsAppend(ip, ft);
    ShiftByZeros(ip + ft, |fc| - |ft|);
    assert ip + ft + Zeros(|fc| - |ft|) == ip + fc;
  }

  /** The text of a sign, digits, and an optional '.' with more digits:
      its places are the digits after the '.', and without the '.' it is
      sign and digits run together. */
  lemma {:induction false} PointedText(pre: string, ft: string)
    requires '.' !in pre && '.' !in ft
    ensures var out := pre + (if ft == [] then [] else "." + ft);
            Places(out) == |ft| && Remove(out, '.') == pre + ft
  {
    if ft == [] {
      RemoveFacts(pre, '.');
      assert pre + [] == pre;
    } else {
      PointedTextDot(pre, ft);
    }
  }

  lemma {:induction false} PointedTextDot(pre: string, ft: string)
    requires '.' !in pre && '.' !in ft
    ensures Places(pre + ("." + ft)) == |ft| && Remove(pre + ("." + ft), '.') == pre + ft
  {
    assert Places(pre + ("." + ft)) == |ft| by {
      assert pre + ("." + ft) == pre + ['.'] + ft;
      IndexOfAfter(pre, ft, '.');
    }
    assert Remove("." + ft, '.') == ft by {
      RemoveConcat(".", ft, '.');
      RemoveFacts(ft, '.');
      assert Remove(".", '.') == [];
    }
    RemoveFacts(pre, '.');
    RemoveConcat(pre, "." + ft, '.');
  }

  /** x with k places is |res| with p places cut after min(p, CAP) places. */
  predicate Kept(res: int, p: nat, x: int, k: nat) {
    k <= Min(p, CAP) && x * Pow(10, Min(p, CAP) - k) == Abs(res) / Pow(10, p - Min(p, CAP))
  }

  lemma {:induction false} KeptValue(res: int, p: nat)
    ensures AllDigits(IntPart(res, p) + KeptFraction(res, p))
    ensures Kept(res, p, DigitsValue(IntPart(res, p) + KeptFraction(res, p)), |KeptFraction(res, p)|)
  {
    var fp, c := FracPart(res, p), Min(p, CAP);
    PointPartsFacts(res, p);
    CutValue(IntPart(res, p), fp, c);
    assert KeptFraction(res, p) == TrimEnd(fp[..c], '0');
  }

  /** Keeping c fraction digits and trimming their trailing zeros, as
      digits: the value is the whole truncated after c fraction digits. */
  lemma {:induction false} CutValue(ip: string, fp: string, c: nat)
    requires AllDigits(ip) && AllDigits(fp) && c <= |fp|
    ensures var ft := TrimEnd(fp[..c], '0');
            AllDigits(ip + ft) && AllDigits(ip + fp) &&
            DigitsValue(ip + ft) * Pow(10, c - |ft|) == DigitsValue(ip + fp) / Pow(10, |fp| - c)
  {
    var fc := fp[..c];
    var ft := TrimEnd(fc, '0');
    assert AllDigits(ip + ft) && AllDigits(ip + fc) &&
           DigitsValue(ip + ft) * Pow(10, c - |ft|) == DigitsValue(ip + fc) by {
      assert AllDigits(fc) by {
        assert forall i | 0 <= i < |fc| :: fc[i] == fp[i];
      }
      TrimZerosValue(ip, fc);
    }
    assert AllDigits(ip + fp) && DigitsValue(ip + fc) == DigitsValue(ip + fp) / Pow(10, |fp| - c) by {
      DigitsAppend(ip, fp);
      var w := ip + fp;
      assert w[..|w| - (|fp| - c)] == ip + fc;
      DropDigits(w, |fp| - c);
    }
  }

  /** A sign, a non-empty integer part and an optional '.' with a fraction,
      read back as an operand. */
  lemma {:induction false} ReadPointed(neg: bool, ip: string, ft: string)
    requires AllDigits(ip) && ip != [] && AllDigits(ft)
    ensures AllDigits(ip + ft)
    ensures ReadOperand((if neg then "-" else "") + ip + (if ft == [] then [] else "." + ft))
            == Ok(Scaled(Signed(neg, DigitsValue(ip + ft)), |ft|))
  {
    var sign := if neg then "-" else "";
    var pre := sign + ip;
    var out := pre + (if ft == [] then [] else "." + ft);
    assert '.' !in pre && '.' !in ft by {
      DigitsNoPoint(ip);
      DigitsNoPoint(ft);
    }
    assert Places(out) == |ft| && Remove(out, '.') == pre + ft by {
      PointedText(pre, ft);
    }
    assert AllDigits(ip + ft) by {
      DigitsAppend(ip, ft);
    }
    assert pre + ft == sign + (ip + ft) by {
      Assoc(sign, ip, ft);
    }
    ParseSignedDigits(neg, ip + ft);
  }

  /** The formatted text read back as an operand: the sign of res on the
      kept digits, with the kept fraction's length as places. */
  lemma {:induction false} FormatReadsBack(res: int, p: nat)
    ensures var ip, ft := IntPart(res, p), KeptFraction(res, p);
            AllDigits(ip + ft) &&
            ReadOperand(FormatScaled(res, p)) == Ok(Scaled(Signed(res < 0, DigitsValue(ip + ft)), |ft|))
  {
    PointPartsFacts(res, p);
    KeptFractionDigits(res, p);
    FormatShape(res, p);
    ReadPointed(res < 0, IntPart(res, p), KeptFraction(res, p));
  }

  /** The formatted text, read back as an operand, denotes res * 10^-p
      truncated toward zero after min(p, 500) fractional digits: the cap
      cuts and never rounds, and the trim drops only zeros. */
  lemma {:induction false} FormatMeaning(res: int, p: nat)
    ensures ReadOperand(FormatScaled(res, p)).Ok?
    ensures ReadTruncates(ReadOperand(FormatScaled(res, p)), res, p)
  {
    var x, k := FormatParts(res, p);
    ReadTrunc(ReadOperand(FormatScaled(res, p)), res, x, k, p);
  }

  /** r denotes res * 10^-p truncated toward zero after min(p, 500)
      fractional digits, written with at most that many places. */
  predicate ReadTruncates(r: Result<Scaled>, res: int, p: nat) {
    r.Ok? && r.value.places <= Min(p, CAP) &&
    r.value.mag * Pow(10, Min(p, CAP) - r.value.places) == TruncDiv(res, Pow(10, p - Min(p, CAP)))
  }

  /** The value and the number of places FormatScaled writes. */
  lemma {:induction false} FormatParts(res: int, p: nat) returns (x: nat, k: nat)
    ensures ReadOperand(FormatScaled(res, p)) == Ok(Scaled(Signed(res < 0, x), k))
    ensures Kept(res, p, x, k)
  {
    var ip, ft := IntPart(res, p), KeptFraction(res, p);
    KeptFractionDigits(res, p);
    KeptValue(res, p);
    FormatReadsBack(res, p);
    x, k := DigitsValue(ip + ft), |ft|;
  }

  lemma {:induction false} ReadTrunc(r: Result<Scaled>, res: int, x: nat, k: nat, p: nat)
    requires r == Ok(Scaled(Signed(res < 0, x), k))
    requires Kept(res, p, x, k)
    ensures ReadTruncates(r, res, p)
  {
    SignedTrunc(res, x, Pow(10, Min(p, CAP) - k), Pow(10, p - Min(p, CAP)));
  }

  lemma {:induction false} SignedTrunc(res: int, x: int, q: int, d: int)
    requires d >= 1 && x * q == Abs(res) / d
    ensures Signed(res < 0, x) * q == TruncDiv(res, d)
  {
    SignedMul(res < 0, x, q);
  }

  /** What every formatted result looks like: neither "" nor "-" (so the
      wrappers' Collapse leaves it alone), at most CAP fractional digits,
      and when a '.' is present the text ends in a non-zero digit. */
  predicate Canonical(out: string) {
    out != "" && out != "-" &&
    Places(out) <= CAP &&
    ('.' in out ==> IsDigit(out[|out| - 1]) && out[|out| - 1] != '0')
  }

  lemma {:induction false} FormatCanonical(res: int, p: nat)
    ensures Canonical(FormatScaled(res, p))
    ensures Collapse(FormatScaled(res, p)) == FormatScaled(res, p)
    ensures FormatScaled(res, p)[0] == '-' <==> res < 0
  {
    FormatShape(res, p);
    PointPartsFacts(res, p);
    KeptFractionDigits(res, p);
    CanonicalText(res < 0, IntPart(res, p), KeptFraction(res, p));
  }

  /** A sign, a non-empty run of digits, and an optional '.' with digits
      that do not end in '0'. */
  lemma {:induction false} CanonicalText(neg: bool, ip: string, ft: string)
    requires AllDigits(ip) && ip != [] && AllDigits(ft) && (ft == [] || ft[|ft| - 1] != '0')
    requires |ft| <= CAP
    ensures var out := (if neg then "-" else "") + ip + (if ft == [] then [] else "." + ft);
            Canonical(out) && (out[0] == '-' <==> neg)
  {
    var pre := (if neg then "-" else "") + ip;
    var out := pre + (if ft == [] then [] else "." + ft);
    assert '.' !in pre && '.' !in ft by {
      DigitsNoPoint(ip);
      DigitsNoPoint(ft);
    }
    PointedText(pre, ft);
    assert out[0] == pre[0];
    assert IsDigit(ip[0]);
    if neg { assert |pre| >= 2; }
    if ft != [] {
      assert out[|out| - 1] == ft[|ft| - 1];
    } else {
      assert out == pre;
    }
  }

  /** A string of digits denoting zero is all zeros. */
  lemma {:induction false} ZeroDigits(s: string)
    requires AllDigits(s) && DigitsValue(s) == 0
    ensures s == Zeros(|s|)
  {
    if s != [] {
      ZeroDigits(s[..|s| - 1]);
      assert s == s[..|s| - 1] + [s[|s| - 1]];
    }
  }

  lemma {:induction false} ZeroProduct(x: int, q: int)
    requires x >= 0 && q >= 1 && x * q == 0
    ensures x == 0
  {}

  /** A magnitude below the divisor truncates to nothing, whatever scale it
      is then written at. */
  lemma {:induction false} CutToZero(x: int, k: int, a: int, q: int)
    requires x >= 0 && k >= 1 && 0 <= a < q && x * k == a / q
    ensures x == 0
  {
    DivQuotient(0, q, a);
    ZeroProduct(x, k);
  }

  lemma {:induction false} AbsScaled(m: int, q: int)
    requires q >= 1
    ensures Abs(m * q) == Abs(m) * q
    ensures SignOf(m * q) == SignOf(m)
  {
    if m < 0 { MulAtLeast(-m, q); assert m * q == -((-m) * q); }
    if m > 0 { MulAtLeast(m, q); }
  }

  lemma {:induction false} IntToStringSign(z: int)
    ensures IntToString(z) == SignOf(z) + NatToDigits(Abs(z))
  {
    if z >= 0 { assert "" + NatToDigits(z) == NatToDigits(z); }
  }

  /** Digits denoting a * 10^|fp| split |fp| from the right: the canonical
      digits of a, then zeros. */
  lemma {:induction false} ExactSplit(ip: string, fp: string, a: nat)
    requires AllDigits(ip) && AllDigits(fp) && |ip| >= 1 && (ip[0] == '0' ==> ip == "0")
    requires AllDigits(ip + fp) && DigitsValue(ip + fp) == a * Pow(10, |fp|)
    ensures ip == NatToDigits(a) && fp == Zeros(|fp|)
  {
    var q := Pow(10, |fp|);
    assert DigitsValue(ip) == a by {
      var w := ip + fp;
      assert w[..|w| - |fp|] == ip;
      DropDigits(w, |fp|);
      DivQuotient(a, q, 0);
    }
    CanonicalDigits(ip);
    assert DigitsValue(fp) == 0 by {
      DigitsAppend(ip, fp);
    }
    ZeroDigits(fp);
  }

  /** An exact integer keeps its digits before the '.' and nothing after. */
  lemma {:induction false} ExactParts(m: int, p: nat)
    ensures IntPart(m * Pow(10, p), p) == NatToDigits(Abs(m))
    ensures KeptFraction(m * Pow(10, p), p) == []
  {
    var res := m * Pow(10, p);
    AbsScaled(m, Pow(10, p));
    PointPartsFacts(res, p);
    ExactSplit(IntPart(res, p), FracPart(res, p), Abs(m));
    var c := Min(p, CAP);
    RepeatFacts('0', |FracPart(res, p)|);
    RepeatFacts('0', c);
    assert FracPart(res, p)[..c] == Zeros(c);
    TrimEndFacts(Zeros(c), '0');
  }

  /** An exact integer m at any precision p prints as m itself: trailing
      fractional zeros go, integer-part zeros stay ("100" stays "100"). */
  lemma {:induction false} FormatExactInteger(m: int, p: nat)
    ensures FormatScaled(m * Pow(10, p), p) == IntToString(m)
  {
    var res := m * Pow(10, p);
    ExactParts(m, p);
    AbsScaled(m, Pow(10, p));
    FormatShape(res, p);
    IntToStringSign(m);
    assert SignOf(res) + NatToDigits(Abs(m)) + [] == SignOf(res) + NatToDigits(Abs(m));
  }

  /** An exact zero prints as "0", whatever the precision. */
  lemma {:induction false} FormatZero(p: nat)
    ensures FormatScaled(0, p) == "0"
  {
    FormatExactInteger(0, p);
  }

  /** With no fractional digits the result is BigInteger.ToString's text:
      the '.' that InsertPoint always adds is what stops TrimEnd('0') from
      eating the integer's own zeros. */
  lemma {:induction false} FormatInteger(res: int)
    ensures FormatScaled(res, 0) == IntToString(res)
  {
    assert res * Pow(10, 0) == res;
    FormatExactInteger(res, 0);
  }

  /** Without that '.', the same two trims would turn "100" into "1". */
  lemma {:induction false} TrimWithoutPointEatsZeros()
    ensures TrimEnd(TrimEnd("100", '0'), '.') == "1"
  {
    assert "100"[..2] == "10" && "10"[..1] == "1";
  }

  /** Digits worth zero, with a canonical integer part and a fraction
      that ends in a non-zero digit, are just "0". */
  lemma {:induction false} ZeroParts(ip: string, ft: string)
    requires AllDigits(ip + ft) && DigitsValue(ip + ft) == 0
    requires |ip| >= 1 && (ip[0] == '0' ==> ip == "0")
    requires ft == [] || ft[|ft| - 1] != '0'
    ensures ip == "0" && ft == []
  {
    ZeroDigits(ip + ft);
    RepeatFacts('0', |ip + ft|);
    assert ip[0] == (ip + ft)[0];
  }

  /** The "-0" quirk: a negative value that the cap truncates to zero keeps
      its sign, so the result is "-0" rather than "0". */
  lemma {:induction false} NegativeZero(res: int, p: nat)
    requires p > CAP && -Pow(10, p - CAP) < res < 0
    ensures FormatScaled(res, p) == "-0"
  {
    LostParts(res, p);
    FormatShape(res, p);
    assert SignOf(res) + "0" + [] == "-0";
  }

  lemma {:induction false} KeptZero(res: int, p: nat, x: int, k: nat)
    requires p > CAP && -Pow(10, p - CAP) < res < 0
    requires x >= 0 && Kept(res, p, x, k)
    ensures x == 0
  {
    CutToZero(x, Pow(10, CAP - k), Abs(res), Pow(10, p - CAP));
  }

  /** Below the last kept place nothing is left: integer part "0", no fraction. */
  lemma {:induction false} LostParts(res: int, p: nat)
    requires p > CAP && -Pow(10, p - CAP) < res < 0
    ensures IntPart(res, p) == "0" && KeptFraction(res, p) == []
  {
    var ip, ft := IntPart(res, p), KeptFraction(res, p);
    KeptValue(res, p);
    KeptZero(res, p, DigitsValue(ip + ft), |ft|);
    PointPartsFacts(res, p);
    KeptFractionDigits(res, p);
    ZeroParts(ip, ft);
  }

  /** With at most CAP places the cap changes nothing: the text Divide
      builds without a cap equals the one ApplyBigOp builds with it. */
  lemma {:induction false} CapNoEffect(res: int, p: nat)
    requires p <= CAP
    ensures Cap(InsertPoint(res, p)) == InsertPoint(res, p)
  {
    PointPartsFacts(res, p);
    DigitsNoPoint(IntPart(res, p));
    CapAfterPoint(SignOf(res) + IntPart(res, p), FracPart(res, p));
    assert FracPart(res, p)[..p] == FracPart(res, p);
  }

  /** Up to CAP places the formatted text reads back as exactly the value
      it was made from. */
  lemma {:induction false} FormatExact(res: int, p: nat)
    requires p <= CAP
    ensures ReadOperand(FormatScaled(res, p)).Ok?
    ensures Value(ReadOperand(FormatScaled(res, p)).value) == Value(Scaled(res, p))
  {
    FormatMeaning(res, p);
    ExactRead(ReadOperand(FormatScaled(res, p)), res, p);
  }

  lemma {:induction false} ExactRead(r: Result<Scaled>, res: int, p: nat)
    requires p <= CAP && ReadTruncates(r, res, p)
    ensures r.Ok? && Value(r.value) == Value(Scaled(res, p))
  {
    var k := r.value.places;
    assert TruncDiv(res, Pow(10, 0)) == res;
    ScaleValue(r.value.mag, k, p);
  }

  /** Capping an already capped text changes nothing. */
  lemma {:induction false} CapIdempotent(s: string)
    ensures Cap(Cap(s)) == Cap(s)
  {
    var dot := IndexOf(s, '.');
    if dot != -1 && |s| - dot - 1 > CAP {
      var t := s[..dot + CAP + 1];
      IndexOfFacts(s, '.');
      assert t[..dot] == s[..dot];
      FirstAt(t, '.', dot);
    }
  }
}
