/** Text helpers shared by the model: the order SQLite uses for TEXT
    columns, and decimal digit strings. */
module Text {

  /* ---------------------------------------------------------------------
     Ordering of TEXT values.

     `ORDER BY date DESC` on a TEXT column uses SQLite's BINARY collation,
     which compares the UTF-8 bytes with memcmp, a proper prefix sorting
     first. UTF-8 preserves code point order, so on strings of code points
     this is the plain lexicographic order on characters.
     --------------------------------------------------------------------- */

  /** `a` sorts strictly before `b` under the BINARY collation. */
  predicate TextLess(a: string, b: string)
    decreases |a|
  {
    if a == [] then b != []
    else if b == [] then false
    else a[0] < b[0] || (a[0] == b[0] && TextLess(a[1..], b[1..]))
  }

  lemma {:induction false} TextLessIrreflexive(a: string)
    ensures !TextLess(a, a)
    decreases |a|
  {
    if a != [] {
      TextLessIrreflexive(a[1..]);
    }
  }

  lemma {:induction false} TextLessTransitive(a: string, b: string, c: string)
    requires TextLess(a, b) && TextLess(b, c)
    ensures TextLess(a, c)
    decreases |a|
  {
    if a != [] && a[0] == b[0] && b[0] == c[0] {
      TextLessTransitive(a[1..], b[1..], c[1..]);
    }
  }

  /** Two different strings are always ordered one way or the other. */
  lemma {:induction false} TextLessTotal(a: string, b: string)
    requires a != b
    ensures TextLess(a, b) || TextLess(b, a)
    decreases |a|
  {
    if a != [] && b != [] && a[0] == b[0] {
      assert a == [a[0]] + a[1..] && b == [b[0]] + b[1..];
      TextLessTotal(a[1..], b[1..]);
    }
  }

  /** Comparing two strings whose first parts have the same length: the
      first parts decide, and only when they are equal do the rest. */
  lemma {:induction false} TextLessConcat(a1: string, b1: string, a2: string, b2: string)
    requires |a1| == |a2|
    ensures TextLess(a1 + b1, a2 + b2) <==> TextLess(a1, a2) || (a1 == a2 && TextLess(b1, b2))
    decreases |a1|
  {
    if a1 == [] {
      assert a1 + b1 == b1 && a2 + b2 == b2;
      TextLessIrreflexive(a1);
    } else {
      assert (a1 + b1)[0] == a1[0] && (a1 + b1)[1..] == a1[1..] + b1;
      assert (a2 + b2)[0] == a2[0] && (a2 + b2)[1..] == a2[1..] + b2;
      TextLessConcat(a1[1..], b1, a2[1..], b2);
      assert a1 == a2 <==> a1[0] == a2[0] && a1[1..] == a2[1..] by {
        if a1[0] == a2[0] && a1[1..] == a2[1..] {
          assert a1 == [a1[0]] + a1[1..] && a2 == [a2[0]] + a2[1..];
        }
      }
    }
  }

  /* ---------------------------------------------------------------------
     Decimal digits.
     --------------------------------------------------------------------- */

  predicate IsDigit(c: char)
  {
    '0' <= c <= '9'
  }

  predicate AllDigits(s: string)
  {
    forall i | 0 <= i < |s| :: IsDigit(s[i])
  }

  function DigitValue(c: char): (v: nat)
    requires IsDigit(c)
    ensures v < 10
  {
    c as int - '0' as int
  }

  function DigitChar(v: nat): (c: char)
    requires v < 10
    ensures IsDigit(c) && DigitValue(c) == v
  {
    ('0' as int + v) as char
  }

  function Pow10(n: nat): (p: nat)
    ensures p >= 1
  {
    if n == 0 then 1 else 10 * Pow10(n - 1)
  }

  /** The number a string of decimal digits denotes, most significant first. */
  function DigitsValue(s: string): nat
    requires AllDigits(s)
    decreases |s|
  {
    if s == [] then 0 else DigitsValue(s[..|s| - 1]) * 10 + DigitValue(s[|s| - 1])
  }

  /** The `width` least significant decimal digits of `n`, zero-padded
      (what `%0<width>d` prints for an `n` below 10^width). */
  function Pad(n: nat, width: nat): (s: string)
    ensures |s| == width && AllDigits(s)
  {
    if width == 0 then [] else Pad(n / 10, width - 1) + [DigitChar(n % 10)]
  }

  /** `str(n)` for a non-negative integer: no leading zeros, "0" for zero. */
  function NatToString(n: nat): (s: string)
    ensures |s| > 0 && AllDigits(s)
  {
    if n < 10 then [DigitChar(n)] else NatToString(n / 10) + [DigitChar(n % 10)]
  }

  lemma {:induction false} DigitsValueBound(s: string)
    requires AllDigits(s)
    ensures DigitsValue(s) < Pow10(|s|)
    decreases |s|
  {
    if s != [] {
      DigitsValueBound(s[..|s| - 1]);
    }
  }

  /** Appending one digit shifts the value left by one place. */
  lemma DigitsValueSnoc(s: string, c: char)
    requires AllDigits(s) && IsDigit(c)
    ensures AllDigits(s + [c]) && DigitsValue(s + [c]) == DigitsValue(s) * 10 + DigitValue(c)
  {
    assert (s + [c])[..|s|] == s;
  }

  /** The value of a concatenation of digit strings. */
  lemma {:induction false} DigitsValueConcat(s: string, t: string)
    requires AllDigits(s) && AllDigits(t)
    ensures AllDigits(s + t) && DigitsValue(s + t) == DigitsValue(s) * Pow10(|t|) + DigitsValue(t)
    decreases |t|
  {
    if t == [] {
      assert s + t == s;
    } else {
      var t' := t[..|t| - 1];
      var c := t[|t| - 1];
      assert t == t' + [c];
      assert s + t == (s + t') + [c];
      DigitsValueConcat(s, t');
      DigitsValueSnoc(s + t', c);
      var x, y := DigitsValue(s), DigitsValue(t');
      DigitsValueSnoc(t', c);
      assert DigitsValue(s + t) == (x * Pow10(|t'|) + y) * 10 + DigitValue(c);
      assert Pow10(|t|) == 10 * Pow10(|t'|);
      ShiftOneDigit(x, Pow10(|t'|), y, DigitValue(c));
    }
  }

  lemma ShiftOneDigit(x: nat, p: nat, y: nat, d: nat)
    ensures (x * p + y) * 10 + d == x * (10 * p) + (y * 10 + d)
  {
  }

  /** Reading back a padded number gives the number. */
  lemma {:induction false} PadValue(n: nat, width: nat)
    requires n < Pow10(width)
    ensures DigitsValue(Pad(n, width)) == n
    decreases width
  {
    if width > 0 {
      PadValue(n / 10, width - 1);
      DigitsValueSnoc(Pad(n / 10, width - 1), DigitChar(n % 10));
    }
  }

  /** Padding the value of a digit string to its own length gives the string back. */
  lemma {:induction false} PadDigitsValue(s: string)
    requires AllDigits(s)
    ensures Pad(DigitsValue(s), |s|) == s
    decreases |s|
  {
    if s != [] {
      var s' := s[..|s| - 1];
      PadDigitsValue(s');
      assert DigitsValue(s) / 10 == DigitsValue(s') && DigitsValue(s) % 10 == DigitValue(s[|s| - 1]);
      assert s == s' + [s[|s| - 1]];
    }
  }

  lemma {:induction false} NatToStringValue(n: nat)
    ensures DigitsValue(NatToString(n)) == n
  {
    if n >= 10 {
      NatToStringValue(n / 10);
      DigitsValueSnoc(NatToString(n / 10), DigitChar(n % 10));
    }
  }

  /** Padded numbers of one width sort as text exactly as they sort as numbers. */
  lemma {:induction false} TextLessPad(x: nat, y: nat, width: nat)
    ensures TextLess(Pad(x, width), Pad(y, width)) <==> x % Pow10(width) < y % Pow10(width)
    decreases width
  {
    if width == 0 {
      TextLessIrreflexive([]);
    } else {
      var w := width - 1;
      TextLessPad(x / 10, y / 10, w);
      TextLessConcat(Pad(x / 10, w), [DigitChar(x % 10)], Pad(y / 10, w), [DigitChar(y % 10)]);
      PadModulo(x / 10, w);
      PadModulo(y / 10, w);
      ModPow10Split(x, w);
      ModPow10Split(y, w);
      if Pad(x / 10, w) == Pad(y / 10, w) {
        PadValue(x / 10 % Pow10(w), w);
        PadValue(y / 10 % Pow10(w), w);
      } else {
        assert x / 10 % Pow10(w) != y / 10 % Pow10(w);
      }
    }
  }

  /** Only the last `width` digits of a number reach its padded form. */
  lemma {:induction false} PadModulo(n: nat, width: nat)
    ensures Pad(n, width) == Pad(n % Pow10(width), width)
    decreases width
  {
    if width > 0 {
      var w := width - 1;
      ModPow10Split(n, w);
      PadModulo(n / 10, w);
      PadModulo(n % Pow10(width) / 10, w);
      DivModNested(n, w);
    }
  }

  /** n mod 10^(w+1) splits into the next digit and the lower part. */
  lemma ModPow10Split(n: nat, w: nat)
    ensures n % Pow10(w + 1) == (n / 10 % Pow10(w)) * 10 + n % 10
    ensures n % Pow10(w + 1) % 10 == n % 10
  {
    ModTenTimes(n, Pow10(w));
  }

  lemma ModTenTimes(n: nat, p: nat)
    requires p > 0
    ensures n % (10 * p) == (n / 10 % p) * 10 + n % 10
    ensures n % (10 * p) % 10 == n % 10
  {
    var q, d := n / 10, n % 10;
    var a, b := q / p, q % p;
    assert n == 10 * q + d;
    assert q == a * p + b;
    assert 10 * q == a * (10 * p) + 10 * b;
    DivModUnique(n, 10 * p, a, 10 * b + d);
    DivModUnique(10 * b + d, 10, b, d);
  }

  lemma DivModNested(n: nat, w: nat)
    ensures n % Pow10(w + 1) / 10 % Pow10(w) == n / 10 % Pow10(w)
  {
    var p := Pow10(w);
    ModTenTimes(n, p);
    var b := n / 10 % p;
    DivModUnique(b * 10 + n % 10, 10, b, n % 10);
    DivModUnique(b, p, 0, b);
  }

  lemma DivModUnique(n: int, d: int, q: int, r: int)
    requires d > 0 && n == q * d + r && 0 <= r < d
    ensures n % d == r && n / d == q
  {
    var k := q - n / d;
    assert k * d == n % d - r by {
      assert n == (n / d) * d + n % d;
    }
    if k >= 1 {
      MulAtLeast(k, d);
    } else if k <= -1 {
      MulAtLeast(-k, d);
    }
  }

  lemma MulAtLeast(k: int, d: int)
    requires k >= 1 && d > 0
    ensures k * d >= d
  {
    assert k * d == (k - 1) * d + d;
  }
}
