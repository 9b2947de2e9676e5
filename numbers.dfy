/**
 * The JavaScript number conversions the scraper applies to captured text:
 * `parseFloat(s)` and `parseInt(s, 10)`. Numbers are kept exact, as a
 * decimal mantissa and a power of ten, instead of IEEE doubles.
 */
module Numbers {
  import opened Text

  /** The exact value `mantissa * 10^exponent`. */
  datatype Decimal = Decimal(mantissa: int, exponent: int)

  /** A JavaScript number as `parseFloat` and `parseInt` can produce it. */
  datatype JsNumber = Finite(value: Decimal) | Infinite(negative: bool) | NaN

  function Pow10(n: nat): (p: nat)
    ensures p >= 1
  {
    if n == 0 then 1 else 10 * Pow10(n - 1)
  }

  /** `m`, negated when `neg`. */
  function Signed(neg: bool, m: nat): int {
    if neg then -(m as int) else m
  }

  function DigitValue(c: char): (v: nat)
    requires IsDigit(c)
    ensures v < 10
  {
    c as int - '0' as int
  }

  /** The value of a string of decimal digits, most significant first. */
  function DigitsValue(ds: string): (v: nat)
    requires All(ds, Digit)
    ensures v < Pow10(|ds|)
  {
    if ds == [] then 0
    else DigitsValue(ds[..|ds| - 1]) * 10 + DigitValue(ds[|ds| - 1])
  }

  /** Where an optional `+` or `-` at `a` ends. */
  function SignEnd(s: string, a: nat): (b: nat)
    requires a <= |s|
    ensures a <= b <= |s| && b <= a + 1
  {
    if a < |s| && (s[a] == '+' || s[a] == '-') then a + 1 else a
  }

  /**
   * The exponent written at `f` in `u` (`e` or `E`, an optional sign, at
   * least one digit), or 0 when none is written there.
   */
  function ExponentAt(u: string, f: nat): int
    requires f <= |u|
  {
    if f < |u| && (u[f] == 'e' || u[f] == 'E') then
      var signed := f + 1 < |u| && (u[f + 1] == '+' || u[f + 1] == '-');
      var start := if signed then f + 2 else f + 1;
      var end := RunEnd(u, start, Digit);
      if end == start then 0
      else if signed && u[f + 1] == '-' then -(DigitsValue(u[start..end]) as int)
      else DigitsValue(u[start..end])
    else 0
  }

  /**
   * `parseFloat(s)`: skip leading whitespace, read an optional sign, then the
   * longest prefix of the form `digits [. [digits]] [exponent]` or
   * `. digits [exponent]`, or `Infinity`; anything else (a lone `.` among
   * it) is NaN.
   */
  function ParseFloat(s: string): (r: JsNumber)
  {
    var a := RunEnd(s, 0, Space);
    var b := SignEnd(s, a);
    var neg := b > a && s[a] == '-';
    var i := RunEnd(s, b, Digit);
    var f := FractionEnd(s, i);
    if i == b && f <= i + 1 then
      if StartsWithInfinity(s[b..]) then Infinite(neg) else NaN
    else
      Finite(Decimal(Signed(neg, DigitsValue(Mantissa(s, b, i, f))), ExponentAt(s, f) - FractionLength(i, f)))
  }

  /** The digits from `b` to the point at `i`, followed by those after it up to `f`. */
  function Mantissa(s: string, b: nat, i: nat, f: nat): (ds: string)
    requires b <= i <= f <= |s| && All(s[b..i], Digit)
    requires f > i ==> All(s[i + 1..f], Digit)
    ensures All(ds, Digit)
  {
    if f == i then s[b..i] else s[b..i] + s[i + 1..f]
  }

  /** How many digits follow the point. */
  function FractionLength(i: nat, f: nat): nat {
    if f <= i then 0 else f - i - 1
  }

  predicate StartsWithInfinity(u: string) {
    |u| >= 8 && u[..8] == "Infinity"
  }

  /** Where the fraction `. digits` that may follow the integer digits ending at `i` ends. */
  function FractionEnd(u: string, i: nat): (f: nat)
    requires i <= |u|
    ensures i <= f <= |u|
    ensures f > i ==> u[i] == '.' && All(u[i + 1..f], Digit)
  {
    if i < |u| && u[i] == '.' then RunEnd(u, i + 1, Digit) else i
  }

  /**
   * `s` reads as a base-10 integer: whitespace, an optional sign, a
   * non-empty run of digits, and a rest that does not continue the run.
   */
  ghost predicate IsIntegerText(s: string, ws: string, sign: string, ds: string, rest: string) {
    s == ws + sign + ds + rest && All(ws, Space)
    && (sign == "" || sign == "+" || sign == "-")
    && |ds| > 0 && All(ds, Digit) && (rest == [] || !IsDigit(rest[0]))
  }

  /**
   * `parseInt(s, 10)` on exact integers: a whole number or NaN. It reads no
   * exponent and no `Infinity`; a digit run too large for a double, which
   * JavaScript reads as `Infinity`, is read here as its exact value.
   */
  function ParseInt(s: string): (r: JsNumber)
    ensures r.Finite? || r.NaN?
    ensures r.Finite? ==> r.value.exponent == 0
  {
    var a := RunEnd(s, 0, Space);
    var b := SignEnd(s, a);
    var n := RunEnd(s, b, Digit);
    if n == b then NaN else Finite(Decimal(Signed(b > a && s[a] == '-', DigitsValue(s[b..n])), 0))
  }

  /** An integer text is read as its digits, negated after a `-`. */
  lemma ParseIntOfIntegerText(s: string, ws: string, sign: string, ds: string, rest: string)
    requires IsIntegerText(s, ws, sign, ds, rest)
    ensures ParseInt(s) == Finite(Decimal(Signed(sign == "-", DigitsValue(ds)), 0))
  {
    var a, b, n := |ws|, |ws| + |sign|, |ws| + |sign| + |ds|;
    assert s[..a] == ws && s[a..b] == sign && s[b..n] == ds && s[n..] == rest;
    assert s[a] == (sign + ds)[0];
    RunEndUnique(s, 0, a, Space);
    assert SignEnd(s, a) == b;
    assert n == |s| || s[n] == rest[0];
    RunEndUnique(s, b, n, Digit);
  }

  /** `parseInt` gives a number exactly when the text reads as an integer, and NaN otherwise. */
  lemma ParseIntFiniteIff(s: string)
    ensures ParseInt(s).Finite? <==> exists ws, sign, ds, rest :: IsIntegerText(s, ws, sign, ds, rest)
  {
    if ParseInt(s).Finite? {
      var a := RunEnd(s, 0, Space);
      var b := SignEnd(s, a);
      var n := RunEnd(s, b, Digit);
      assert s == s[..a] + s[a..b] + s[b..n] + s[n..];
      assert s[..a] == s[0..a];
      assert s[a..b] == "" || s[a..b] == [s[a]];
      assert IsIntegerText(s, s[..a], s[a..b], s[b..n], s[n..]);
    } else {
      forall ws, sign, ds, rest | IsIntegerText(s, ws, sign, ds, rest) ensures false {
        ParseIntOfIntegerText(s, ws, sign, ds, rest);
      }
    }
  }

  /** `parseFloat` reads `digits . digits` exactly, up to a character that cannot continue it. */
  lemma ParseFloatOfDecimalText(s: string, i: nat, f: nat)
    requires 0 < i < f <= |s| && All(s[..i], Digit) && s[i] == '.' && All(s[i + 1..f], Digit)
    requires f == |s| || (!IsDigit(s[f]) && s[f] != 'e' && s[f] != 'E')
    ensures ParseFloat(s) == Finite(Decimal(DigitsValue(s[..i] + s[i + 1..f]), -(f - i - 1)))
  {
    assert s[..i][0] == s[0];
    RunEndUnique(s, 0, 0, Space);
    assert SignEnd(s, 0) == 0;
    RunEndUnique(s, 0, i, Digit);
    RunEndUnique(s, i + 1, f, Digit);
    assert FractionEnd(s, i) == f;
    assert ExponentAt(s, f) == 0;
  }

  /** `digits.digits` reads as the digits with the point moved in by the fraction's length. */
  lemma ParseFloatOfPoint(ds: string, frac: string)
    requires |ds| > 0 && All(ds, Digit) && All(frac, Digit)
    ensures ParseFloat(ds + "." + frac) == Finite(Decimal(DigitsValue(ds + frac), -|frac|))
  {
    var token := ds + "." + frac;
    assert token[..|ds|] == ds;
    assert token[|ds|] == '.';
    assert token[|ds| + 1..|token|] == frac;
    ParseFloatOfDecimalText(token, |ds|, |token|);
  }

  /** `parseFloat` reads a run of digits exactly, up to a character that cannot continue it. */
  lemma ParseFloatOfDigits(s: string, i: nat)
    requires 0 < i <= |s| && All(s[..i], Digit)
    requires i == |s| || (!IsDigit(s[i]) && s[i] != '.' && s[i] != 'e' && s[i] != 'E')
    ensures ParseFloat(s) == Finite(Decimal(DigitsValue(s[..i]), 0))
  {
    assert s[..i][0] == s[0];
    RunEndUnique(s, 0, 0, Space);
    assert SignEnd(s, 0) == 0;
    RunEndUnique(s, 0, i, Digit);
    assert FractionEnd(s, i) == i;
  }

  /** `parseFloat` reads `digits e digits` as the digits times a power of ten. */
  lemma ParseFloatOfExponentText(s: string, i: nat)
    requires 0 < i < |s| - 1 && All(s[..i], Digit) && (s[i] == 'e' || s[i] == 'E')
    requires All(s[i + 1..], Digit)
    ensures ParseFloat(s) == Finite(Decimal(DigitsValue(s[..i]), DigitsValue(s[i + 1..])))
  {
    assert s[..i][0] == s[0];
    RunEndUnique(s, 0, 0, Space);
    assert SignEnd(s, 0) == 0;
    RunEndUnique(s, 0, i, Digit);
    assert FractionEnd(s, i) == i;
    assert s[i + 1..] == s[i + 1..|s|];
    RunEndUnique(s, i + 1, |s|, Digit);
    assert ExponentAt(s, i) == DigitsValue(s[i + 1..]);
  }

  /** Text that starts with a digit always reads as a finite number (an exact decimal; no overflow to `Infinity`). */
  lemma ParseFloatOfLeadingDigit(s: string)
    requires |s| > 0 && IsDigit(s[0])
    ensures ParseFloat(s).Finite?
  {
    RunEndUnique(s, 0, 0, Space);
  }
}
