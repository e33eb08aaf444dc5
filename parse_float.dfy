/** `parse_float` (app.py) and the part of Python's `float()` it relies on:
    decimal text with an optional sign, fraction and exponent, read as an
    exact `real` (rounding to a binary double is not modelled). */
module Numbers {
  import opened Text
  import opened Schema

  /** The ASCII characters `float()` strips from both ends: the C white
      space characters and the separators 0x1C to 0x1F. */
  predicate IsSpace(c: char)
  {
    c == ' ' || c == '\t' || c == '\n' || c == '\r' || c as int == 11 || c as int == 12
    || 28 <= c as int <= 31
  }

  function TrimLeft(s: string): (r: string)
    ensures r == [] || !IsSpace(r[0])
    ensures |r| <= |s|
    decreases |s|
  {
    if s != [] && IsSpace(s[0]) then TrimLeft(s[1..]) else s
  }

  function TrimRight(s: string): (r: string)
    ensures r == [] || !IsSpace(r[|r| - 1])
    ensures |r| <= |s|
    decreases |s|
  {
    if s != [] && IsSpace(s[|s| - 1]) then TrimRight(s[..|s| - 1]) else s
  }

  /** The text `float()` parses: the argument without surrounding white space. */
  function Strip(s: string): string
  {
    TrimLeft(TrimRight(s))
  }

  /** The index just past the run of digits that starts at `i`. */
  function DigitRun(s: string, i: nat): (j: nat)
    requires i <= |s|
    ensures i <= j <= |s| && AllDigits(s[i..j])
    ensures j == |s| || !IsDigit(s[j])
    decreases |s| - i
  {
    if i < |s| && IsDigit(s[i]) then
      var j := DigitRun(s, i + 1);
      assert s[i..j] == [s[i]] + s[i + 1..j];
      j
    else i
  }

  /** Where the whole part of an unsigned number ends. */
  function WholeEnd(s: string): nat
    ensures WholeEnd(s) <= |s|
  {
    DigitRun(s, 0)
  }

  /** The whole part is followed by a decimal point. */
  predicate HasPoint(s: string)
  {
    WholeEnd(s) < |s| && s[WholeEnd(s)] == '.'
  }

  /** Where the fraction part ends (the whole part's end if there is no point). */
  function FractionEnd(s: string): (j: nat)
    ensures WholeEnd(s) <= j <= |s|
    ensures HasPoint(s) ==> WholeEnd(s) < j
  {
    if HasPoint(s) then DigitRun(s, WholeEnd(s) + 1) else WholeEnd(s)
  }

  function Fraction(s: string): (f: string)
    ensures AllDigits(f)
  {
    if HasPoint(s) then s[WholeEnd(s) + 1..FractionEnd(s)] else []
  }

  /** `m` times ten to the power `e`. */
  function Scale(m: real, e: int): real
  {
    if e >= 0 then m * Pow10(e) as real else m / Pow10(-e) as real
  }

  lemma ScaleZero(m: real)
    ensures Scale(m, 0) == m
  {
    assert Pow10(0) == 1;
  }

  /** The exponent part of a number: nothing (exponent 0), or `e` or `E`,
      an optional sign and at least one digit, running to the end. */
  function ParseExponent(s: string): Option<int>
  {
    if s == [] then Some(0)
    else if s[0] != 'e' && s[0] != 'E' then None
    else
      var signed := |s| > 1 && (s[1] == '+' || s[1] == '-');
      var digits := if signed then s[2..] else s[1..];
      if digits != [] && AllDigits(digits) then
        Some(if signed && s[1] == '-' then -(DigitsValue(digits) as int) else DigitsValue(digits))
      else None
  }

  /** An unsigned number: digits, optionally a point and more digits, at
      least one digit in all, then an optional exponent. */
  function ParseUnsigned(s: string): Option<real>
  {
    var whole := s[..WholeEnd(s)];
    var fraction := Fraction(s);
    if |whole| + |fraction| == 0 then None
    else
      match ParseExponent(s[FractionEnd(s)..])
      case None => None
      case Some(e) =>
        assert AllDigits(whole + fraction);
        Some(Scale(DigitsValue(whole + fraction) as real / Pow10(|fraction|) as real, e))
  }

  /** `x` negated, where there is a number. */
  function Negated(x: Option<real>): Option<real>
  {
    match x
    case None => None
    case Some(v) => Some(-v)
  }

  /** A number with an optional sign. */
  function ParseSigned(t: string): Option<real>
  {
    if t != [] && t[0] == '-' then Negated(ParseUnsigned(t[1..]))
    else if t != [] && t[0] == '+' then ParseUnsigned(t[1..])
    else ParseUnsigned(t)
  }

  /** `float(s)` on a string: `None` where Python raises `ValueError`. */
  function ParseDecimal(s: string): Option<real>
  {
    ParseSigned(Strip(s))
  }

  /** `parse_float(value, default)`: the default for a missing or empty
      value and for any text `float()` refuses, the number otherwise. */
  function ParseFloat(value: Option<string>, default: real): real
  {
    if value.None? || value.value == "" then default
    else ParseDecimal(value.value).GetOr(default)
  }

  /* ---------------------------------------------------------------------
     What parse_float promises.
     --------------------------------------------------------------------- */

  /** The characters a number `float()` accepts can contain. */
  predicate NumericChar(c: char)
  {
    IsDigit(c) || c == '+' || c == '-' || c == '.' || c == 'e' || c == 'E'
  }

  /** A missing value, an empty one and one of white space alone all give
      the default. */
  lemma ParseFloatBlank(value: Option<string>, default: real)
    requires value.Some? ==> Strip(value.value) == []
    ensures ParseFloat(value, default) == default
  {
    if value.Some? && value.value != "" {
      assert ParseUnsigned([]) == None by {
        assert DigitRun([], 0) == 0;
      }
    }
  }

  lemma {:induction false} ExponentIsNumeric(s: string)
    requires ParseExponent(s).Some?
    ensures forall k | 0 <= k < |s| :: NumericChar(s[k])
  {
  }

  lemma {:induction false} UnsignedIsNumeric(s: string)
    requires ParseUnsigned(s).Some?
    ensures forall k | 0 <= k < |s| :: NumericChar(s[k])
  {
    var i, j := WholeEnd(s), FractionEnd(s);
    assert ParseExponent(s[j..]).Some?;
    ExponentIsNumeric(s[j..]);
    forall k | 0 <= k < |s| ensures NumericChar(s[k]) {
      if k < i {
        assert s[k] == s[0..i][k];
      } else if k == i && HasPoint(s) {
      } else if k < j {
        assert s[k] == s[i + 1..j][k - i - 1];
      } else {
        assert s[k] == s[j..][k - j];
      }
    }
  }

  /** Any text holding, after stripping, a character that cannot occur in
      a number (a letter other than `e`, a comma, a currency sign, ...)
      gives the default. */
  lemma ParseFloatRejectsNonNumeric(s: string, k: nat, default: real)
    requires k < |Strip(s)| && !NumericChar(Strip(s)[k])
    ensures ParseFloat(Some(s), default) == default
  {
    var t := Strip(s);
    if ParseDecimal(s).Some? {
      if t != [] && (t[0] == '+' || t[0] == '-') {
        UnsignedIsNumeric(t[1..]);
      } else {
        UnsignedIsNumeric(t);
      }
      assert false;
    }
  }

  /** Text that begins and ends with a non-space character is parsed as it is. */
  lemma StripUnpadded(s: string)
    requires s != [] && !IsSpace(s[0]) && !IsSpace(s[|s| - 1])
    ensures Strip(s) == s
  {
  }

  /** A run of digits followed by a non-digit (or the end) is found exactly. */
  lemma {:induction false} DigitRunExact(s: string, i: nat, j: nat)
    requires i <= j <= |s| && AllDigits(s[i..j]) && (j == |s| || !IsDigit(s[j]))
    ensures DigitRun(s, i) == j
    decreases j - i
  {
    if i < j {
      assert s[i] == s[i..j][0];
      assert s[i + 1..j] == s[i..j][1..];
      DigitRunExact(s, i + 1, j);
    }
  }

  /** Digits alone: their value. */
  lemma ParseUnsignedWhole(a: string)
    requires AllDigits(a) && a != []
    ensures ParseUnsigned(a) == Some(DigitsValue(a) as real)
  {
    DigitRunExact(a, 0, |a|);
    assert WholeEnd(a) == |a| && !HasPoint(a);
    assert FractionEnd(a) == |a| && Fraction(a) == [];
    assert a[..|a|] + [] == a;
    assert a[|a|..] == [];
    assert ParseExponent(a[|a|..]) == Some(0);
    var m := DigitsValue(a) as real / Pow10(0) as real;
    assert ParseUnsigned(a) == Some(Scale(m, 0));
    ScaleZero(m);
    OverPow10Zero(DigitsValue(a));
  }

  lemma OverPow10Zero(v: nat)
    ensures v as real / Pow10(0) as real == v as real
  {
    assert Pow10(0) == 1;
  }

  /** Text without surrounding space that starts with a digit is read as
      an unsigned number. */
  lemma ParseDecimalUnsigned(s: string)
    requires s != [] && IsDigit(s[0]) && !IsSpace(s[|s| - 1])
    ensures ParseDecimal(s) == ParseUnsigned(s)
  {
    StripUnpadded(s);
  }

  /** `float(str(n))` is `n`. */
  lemma ParseDecimalNat(n: nat)
    ensures ParseDecimal(NatToString(n)) == Some(n as real)
  {
    var s := NatToString(n);
    ParseDecimalUnsigned(s);
    ParseUnsignedWhole(s);
    NatToStringValue(n);
  }

  /** The text `"<n>.<f>"` with exactly `w` fraction digits, as a user
      types an amount such as "45.20". */
  function DecimalText(n: nat, f: nat, w: nat): string
    requires f < Pow10(w)
  {
    NatToString(n) + "." + Pad(f, w)
  }

  /** Digits, a point and digits: the digits' value over 10 to the number
      of fraction digits. */
  lemma ParseUnsignedPointed(a: string, b: string)
    requires AllDigits(a) && AllDigits(b) && a != []
    ensures AllDigits(a + b)
    ensures ParseUnsigned(a + ['.'] + b) == Some(DigitsValue(a + b) as real / Pow10(|b|) as real)
  {
    var s := a + ['.'] + b;
    assert s[..|a|] == a && s[|a|] == '.' && s[|a| + 1..] == b;
    DigitRunExact(s, 0, |a|);
    assert WholeEnd(s) == |a| && HasPoint(s);
    DigitRunExact(s, |a| + 1, |s|);
    assert FractionEnd(s) == |s| && Fraction(s) == b;
    assert s[|s|..] == [];
    assert ParseExponent(s[|s|..]) == Some(0);
    var m := DigitsValue(a + b) as real / Pow10(|b|) as real;
    assert ParseUnsigned(s) == Some(Scale(m, 0));
    ScaleZero(m);
  }

  /** The number "<n>.<f>" with `w` fraction digits denotes. */
  function DecimalValue(n: nat, f: nat, w: nat): real
  {
    n as real + f as real / Pow10(w) as real
  }

  /** `float("<n>.<f>")` is n + f / 10^w. */
  lemma ParseDecimalFraction(n: nat, f: nat, w: nat)
    requires f < Pow10(w)
    ensures ParseDecimal(DecimalText(n, f, w)) == Some(DecimalValue(n, f, w))
  {
    var a := NatToString(n);
    var b := Pad(f, w);
    var s := DecimalText(n, f, w);
    assert s == a + ['.'] + b;
    DecimalTextEnds(n, f, w);
    ParseDecimalUnsigned(s);
    ParseUnsignedPointed(a, b);
    var v := DigitsValue(a + b);
    assert v == n * Pow10(w) + f by {
      DigitsValueConcat(a, b);
      NatToStringValue(n);
      PadValue(f, w);
    }
    PlaceValue(n, f, w, v);
  }

  /** (n * 10^w + f) / 10^w is n + f / 10^w. */
  lemma PlaceValue(n: nat, f: nat, w: nat, v: nat)
    requires v == n * Pow10(w) + f
    ensures v as real / Pow10(w) as real == DecimalValue(n, f, w)
  {
    var p := Pow10(w);
    assert v as real == n as real * p as real + f as real;
  }

  /** A leading minus sign negates what follows. */
  lemma ParseDecimalNegative(s: string, x: real)
    requires s != [] && IsDigit(s[0]) && !IsSpace(s[|s| - 1])
    requires ParseDecimal(s) == Some(x)
    ensures ParseDecimal(['-'] + s) == Some(-x)
  {
    ParseDecimalUnsigned(s);
    ParseDecimalMinus(s, x);
  }

  lemma ParseDecimalMinus(s: string, x: real)
    requires s != [] && !IsSpace(s[|s| - 1])
    requires ParseUnsigned(s) == Some(x)
    ensures ParseDecimal(['-'] + s) == Some(-x)
  {
    var t := ['-'] + s;
    assert t[0] == '-' && t[|t| - 1] == s[|s| - 1];
    StripUnpadded(t);
    ParseSignedMinus(t, s);
  }

  lemma ParseSignedMinus(t: string, s: string)
    requires t == ['-'] + s
    ensures ParseSigned(t) == Negated(ParseUnsigned(s))
  {
    assert t[1..] == s;
  }

  /** Text `float()` accepts gives its number. */
  lemma ParseFloatAccepts(s: string, x: real, default: real)
    requires ParseDecimal(s) == Some(x)
    ensures ParseFloat(Some(s), default) == x
  {
  }

  /** "<n>.<f>" starts with a digit and ends with a digit or the point. */
  lemma DecimalTextEnds(n: nat, f: nat, w: nat)
    requires f < Pow10(w)
    ensures var s := DecimalText(n, f, w);
      s != [] && IsDigit(s[0]) && (IsDigit(s[|s| - 1]) || s[|s| - 1] == '.')
  {
    var s := DecimalText(n, f, w);
    assert s[0] == NatToString(n)[0];
    if w > 0 {
      assert s[|s| - 1] == Pad(f, w)[w - 1];
    }
  }

  /** Typed amounts round-trip through parse_float: "12" gives 12. */
  lemma ParseFloatWhole(n: nat, default: real)
    ensures ParseFloat(Some(NatToString(n)), default) == n as real
  {
    ParseDecimalNat(n);
    ParseFloatAccepts(NatToString(n), n as real, default);
  }

  /** "45.20" gives 45.2. */
  lemma ParseFloatFraction(n: nat, f: nat, w: nat, default: real)
    requires f < Pow10(w)
    ensures ParseFloat(Some(DecimalText(n, f, w)), default) == DecimalValue(n, f, w)
  {
    ParseDecimalFraction(n, f, w);
    ParseFloatAccepts(DecimalText(n, f, w), DecimalValue(n, f, w), default);
  }

  /** "-3.5" gives -3.5. */
  lemma ParseFloatNegativeFraction(n: nat, f: nat, w: nat, default: real)
    requires f < Pow10(w)
    ensures ParseFloat(Some(['-'] + DecimalText(n, f, w)), default) == -DecimalValue(n, f, w)
  {
    ParseDecimalFraction(n, f, w);
    DecimalTextEnds(n, f, w);
    ParseFloatNegated(DecimalText(n, f, w), DecimalValue(n, f, w), default);
  }

  lemma ParseFloatNegated(s: string, x: real, default: real)
    requires s != [] && IsDigit(s[0]) && !IsSpace(s[|s| - 1])
    requires ParseDecimal(s) == Some(x)
    ensures ParseFloat(Some(['-'] + s), default) == -x
  {
    var t := ['-'] + s;
    ParseDecimalNegative(s, x);
    assert t != [] && ParseDecimal(t) == Some(-x);
  }
}
