/**
 JavaScript's global `parseFloat` (section 19.2.4 of ECMA-262): leading white space is
 skipped, then the longest prefix that is a StrDecimalLiteral is read and everything
 after it is ignored; when no prefix is one, the result is NaN.

 A JavaScript number is modelled as an exact real, positive or negative infinity, or
 NaN. Binary floating-point rounding, overflow to infinity and underflow to zero are
 not modelled: a finite literal denotes the exact real it spells.
 */
module JsNumber {
  import opened JsString

  datatype Number = Finite(value: real) | PositiveInfinity | NegativeInfinity | NaN

  /** Unary minus on a JavaScript number. */
  function Negate(x: Number): Number {
    match x
    case Finite(v) => Finite(-v)
    case PositiveInfinity => NegativeInfinity
    case NegativeInfinity => PositiveInfinity
    case NaN => NaN
  }

  /** `x > 0` in JavaScript; false for NaN. */
  predicate IsAboveZero(x: Number) {
    (x.Finite? && x.value > 0.0) || x.PositiveInfinity?
  }

  /** `x <= 0` in JavaScript; false for NaN. */
  predicate IsAtMostZero(x: Number) {
    (x.Finite? && x.value <= 0.0) || x.NegativeInfinity?
  }

  function Pow10(n: nat): (r: real)
    ensures r >= 1.0
  {
    if n == 0 then 1.0 else 10.0 * Pow10(n - 1)
  }

  /** `m` times ten to the power `e`. */
  function Scale(m: real, e: int): (r: real)
    ensures e == 0 ==> r == m
    ensures m >= 0.0 ==> r >= 0.0
    ensures m >= 0.0 ==> (r > 0.0 <==> m > 0.0)
  {
    if e >= 0 then m * Pow10(e) else m / Pow10(-e)
  }

  const InfinityWord: string := "Infinity"

  /** `u` starts with a StrUnsignedDecimalLiteral: `Infinity`, a digit, or a
      decimal point followed by a digit. */
  predicate StartsWithUnsignedLiteral(u: string) {
    || (|u| >= |InfinityWord| && u[..|InfinityWord|] == InfinityWord)
    || (|u| >= 1 && IsAsciiDigit(u[0]))
    || (|u| >= 2 && u[0] == '.' && IsAsciiDigit(u[1]))
  }

  /** The value of an ExponentPart at the head of `t`; 0 when `t` does not start with
      one (an `e` not followed by digits is not part of the literal). */
  function ExponentOf(t: string): (e: int)
    ensures !(|t| >= 1 && (t[0] == 'e' || t[0] == 'E')) ==> e == 0
  {
    if |t| >= 1 && (t[0] == 'e' || t[0] == 'E') then
      var negative := |t| >= 2 && t[1] == '-';
      var digits := if |t| >= 2 && (t[1] == '-' || t[1] == '+') then t[2..] else t[1..];
      var k := LeadingDigits(digits);
      var magnitude: int := DigitsValue(digits[..k]);
      if negative then -magnitude else magnitude
    else
      0
  }

  /** The value of a literal with digits `whole` before the point, `fraction` after
      it and exponent `e`. */
  function LiteralValue(whole: string, fraction: string, e: int): (v: real)
    requires AllDigits(whole) && AllDigits(fraction)
    ensures v >= 0.0
    ensures v > 0.0 <==> DigitsValue(whole) > 0 || DigitsValue(fraction) > 0
    ensures fraction == [] && e == 0 ==> v == DigitsValue(whole) as real
  {
    var q := DigitsValue(fraction) as real / Pow10(|fraction|);
    assert q >= 0.0 && (q > 0.0 <==> DigitsValue(fraction) > 0) by {
      assert q * Pow10(|fraction|) == DigitsValue(fraction) as real;
    }
    Scale(DigitsValue(whole) as real + q, e)
  }

  /** The longest StrUnsignedDecimalLiteral prefix of `u`, evaluated. */
  function ParseUnsigned(u: string): (r: Number)
    ensures r.NaN? <==> !StartsWithUnsignedLiteral(u)
    ensures |u| >= |InfinityWord| && u[..|InfinityWord|] == InfinityWord ==> r == PositiveInfinity
    ensures !r.NegativeInfinity?
    ensures r.Finite? ==> r.value >= 0.0
  {
    if |u| >= |InfinityWord| && u[..|InfinityWord|] == InfinityWord then
      PositiveInfinity
    else
      var i := LeadingDigits(u);
      var rest := u[i..];
      if |rest| >= 1 && rest[0] == '.' then
        var afterPoint := rest[1..];
        var f := LeadingDigits(afterPoint);
        if i == 0 && f == 0 then
          NaN
        else
          Finite(LiteralValue(u[..i], afterPoint[..f], ExponentOf(afterPoint[f..])))
      else if i == 0 then
        NaN
      else
        Finite(LiteralValue(u[..i], [], ExponentOf(rest)))
  }

  /** `parseFloat(s)`. Text of white space alone has no literal, and only a leading
      minus sign, after the white space, yields a negative result. */
  function ParseFloat(s: string): (r: Number)
    ensures IsBlank(s) ==> r == NaN
    ensures r.NegativeInfinity? || (r.Finite? && r.value < 0.0) ==>
      var t := TrimStart(s); t != [] && t[0] == '-'
  {
    var t := TrimStart(s);
    if |t| >= 1 && t[0] == '-' then Negate(ParseUnsigned(t[1..]))
    else if |t| >= 1 && t[0] == '+' then ParseUnsigned(t[1..])
    else ParseUnsigned(t)
  }

  /** Leading white space never changes what `parseFloat` reads. */
  lemma ParseFloatSkipsLeadingBlank(ws: string, s: string)
    requires IsBlank(ws)
    ensures ParseFloat(ws + s) == ParseFloat(s)
  {
    TrimStartSkipsBlankPrefix(ws, s);
  }

  /** An exponent marker, an optional sign and a nonempty run of digits, followed by
      text that does not continue the run, denote that run's value, negated after a
      minus sign: "e3", "E+3" and "e-3" denote 3, 3 and -3. */
  lemma ExponentOfDigits(marker: char, sign: string, d: string, t: string)
    requires marker == 'e' || marker == 'E'
    requires sign == [] || sign == "+" || sign == "-"
    requires d != [] && AllDigits(d)
    requires t == [] || !IsAsciiDigit(t[0])
    ensures ExponentOf([marker] + sign + d + t) ==
      if sign == "-" then -(DigitsValue(d) as int) else DigitsValue(d)
  {
    var u := [marker] + sign + d + t;
    assert u[1..] == sign + (d + t);
    ExponentAfterMarker(u, sign, d, t);
  }

  /** `ExponentOfDigits`, for text `u` whose first character is the marker. */
  lemma ExponentAfterMarker(u: string, sign: string, d: string, t: string)
    requires |u| >= 1 && (u[0] == 'e' || u[0] == 'E') && u[1..] == sign + (d + t)
    requires sign == [] || sign == "+" || sign == "-"
    requires d != [] && AllDigits(d)
    requires t == [] || !IsAsciiDigit(t[0])
    ensures ExponentOf(u) == if sign == "-" then -(DigitsValue(d) as int) else DigitsValue(d)
  {
    LeadingDigitsOfDigitRun(d, t);
    ConcatSlices(d, t);
    if sign == [] {
      assert u[1] == d[0];
    } else {
      assert u[1] == sign[0];
      assert u[2..] == d + t by {
        assert u[2..] == u[1..][1..];
      }
    }
    ExponentOfUnfold(u, d + t);
  }

  /** `ExponentOf` at a marker, given the text after the marker and its sign. */
  lemma ExponentOfUnfold(u: string, digits: string)
    requires |u| >= 1 && (u[0] == 'e' || u[0] == 'E')
    requires digits == if |u| >= 2 && (u[1] == '-' || u[1] == '+') then u[2..] else u[1..]
    ensures var m: int := DigitsValue(digits[..LeadingDigits(digits)]);
      ExponentOf(u) == if |u| >= 2 && u[1] == '-' then -m else m
  {
  }

  /** Text starting with a digit or a point does not start with `Infinity`. */
  lemma NoInfinityPrefix(u: string)
    requires u != [] && (IsAsciiDigit(u[0]) || u[0] == '.')
    ensures !(|u| >= |InfinityWord| && u[..|InfinityWord|] == InfinityWord)
  {
    if |u| >= |InfinityWord| {
      assert u[..|InfinityWord|][0] == u[0];
    }
  }

  /** A nonempty run of integer digits, followed by text that does not continue it
      with a digit or a decimal point, is read as those digits scaled by the exponent
      part, if any, at the head of the text after them. */
  lemma ParseUnsignedOfInteger(w: string, junk: string)
    requires w != [] && AllDigits(w)
    requires junk == [] || !(IsAsciiDigit(junk[0]) || junk[0] == '.')
    ensures ParseUnsigned(w + junk) == Finite(LiteralValue(w, [], ExponentOf(junk)))
  {
    var u := w + junk;
    assert u[0] == w[0];
    NoInfinityPrefix(u);
    LeadingDigitsOfDigitRun(w, junk);
    assert u[..|w|] == w;
    assert u[|w|..] == junk;
  }

  /** How `ParseUnsigned` reads a literal whose integer digits end at a decimal point. */
  lemma ParseUnsignedAtPoint(u: string, i: nat, f: nat)
    requires !(|u| >= |InfinityWord| && u[..|InfinityWord|] == InfinityWord)
    requires LeadingDigits(u) == i && i < |u| && u[i] == '.'
    requires LeadingDigits(u[i + 1..]) == f && (i > 0 || f > 0)
    ensures ParseUnsigned(u) == Finite(LiteralValue(u[..i], u[i + 1..][..f], ExponentOf(u[i + 1..][f..])))
  {
    assert u[i..][1..] == u[i + 1..];
  }

  /** Digits, a decimal point and more digits (at least one digit in all), followed
      by text that does not continue the fraction with a digit, are read as that
      decimal scaled by the exponent part, if any, at the head of the text after
      them: "0.5" is 0.5, "5.e2" is 500 and "1.5e-3" is 0.0015. */
  lemma ParseUnsignedOfDecimal(w: string, f: string, junk: string)
    requires AllDigits(w) && AllDigits(f) && (w != [] || f != [])
    requires junk == [] || !IsAsciiDigit(junk[0])
    ensures ParseUnsigned(w + "." + f + junk) == Finite(LiteralValue(w, f, ExponentOf(junk)))
  {
    var u := w + "." + f + junk;
    var tail := "." + (f + junk);
    PointSplit(w, f, junk);
    NoInfinityPrefix(u);
    LeadingDigitsOfDigitRun(w, tail);
    LeadingDigitsOfDigitRun(f, junk);
    ConcatSlices(f, junk);
    ParseUnsignedAtPoint(u, |w|, |f|);
  }

  /** The pieces of `w + "." + f + junk`, cut at the decimal point. */
  lemma PointSplit(w: string, f: string, junk: string)
    ensures var u := w + "." + f + junk;
      && u == w + ("." + (f + junk))
      && |w| < |u| && u[..|w|] == w && u[|w|] == '.' && u[|w| + 1..] == f + junk
      && u[0] == if w != [] then w[0] else '.'
  {
  }

  /** Cutting `x + y` at `|x|` gives back `x` and `y`. */
  lemma ConcatSlices(x: string, y: string)
    ensures (x + y)[..|x|] == x && (x + y)[|x|..] == y
  {
  }

  /** The decimal rendering of a natural number, followed by text that cannot extend
      a literal, reads back as that number: `parseFloat("12abc")` is 12. */
  lemma ParseFloatOfNaturalPrefix(n: nat, junk: string)
    requires junk == [] || !(IsAsciiDigit(junk[0]) || junk[0] == '.' || junk[0] == 'e' || junk[0] == 'E')
    ensures ParseFloat(NatToDecimal(n) + junk) == Finite(n as real)
  {
    var d := NatToDecimal(n);
    var u := d + junk;
    assert u[0] == d[0];
    assert !IsJsWhitespace(u[0]);
    assert TrimStart(u) == u;
    ParseUnsignedOfInteger(d, junk);
    assert ExponentOf(junk) == 0;
  }

  /** `parseFloat` of the decimal rendering of a natural number is that number. */
  lemma ParseFloatOfNatural(n: nat)
    ensures ParseFloat(NatToDecimal(n)) == Finite(n as real)
  {
    ParseFloatOfNaturalPrefix(n, []);
    assert NatToDecimal(n) + [] == NatToDecimal(n);
  }

  /** Text that starts with neither white space nor a sign is read by `parseFloat`
      as an unsigned literal. */
  lemma ParseFloatOfUnsigned(u: string)
    requires u == [] || !(IsJsWhitespace(u[0]) || u[0] == '-' || u[0] == '+')
    ensures ParseFloat(u) == ParseUnsigned(u)
  {
    assert TrimStart(u) == u;
  }

  /** A leading minus sign negates the unsigned literal after it. */
  lemma ParseFloatOfMinus(u: string)
    ensures ParseFloat("-" + u) == Negate(ParseUnsigned(u))
  {
    var s := "-" + u;
    assert s[0] == '-' && !IsJsWhitespace(s[0]);
    assert TrimStart(s) == s;
    assert s[1..] == u;
  }

  /** A leading plus sign is read and has no effect on the unsigned literal after it. */
  lemma ParseFloatOfPlus(u: string)
    ensures ParseFloat("+" + u) == ParseUnsigned(u)
  {
    var s := "+" + u;
    assert s[0] == '+' && !IsJsWhitespace(s[0]);
    assert TrimStart(s) == s;
    assert s[1..] == u;
  }

  /** "-" followed by the decimal writing of a natural number reads as its negation. */
  lemma ParseFloatOfNegatedNatural(n: nat)
    ensures ParseFloat("-" + NatToDecimal(n)) == Finite(-(n as real))
  {
    ParseFloatOfMinus(NatToDecimal(n));
    ParseUnsignedOfInteger(NatToDecimal(n), []);
    assert NatToDecimal(n) + [] == NatToDecimal(n);
  }
}
