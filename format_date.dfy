/** `format_date` (app.py): a stored `YYYY-MM-DD` date shown as
    `Mon DD, YYYY`, with `datetime.strptime` and `strftime` in the C locale. */
module Dates {
  import opened Text
  import opened Schema

  /** A calendar date of the proleptic Gregorian calendar, as `datetime` has it. */
  datatype Date = Date(year: nat, month: nat, day: nat)

  predicate IsLeapYear(year: nat)
  {
    year % 4 == 0 && (year % 100 != 0 || year % 400 == 0)
  }

  function DaysInMonth(year: nat, month: nat): (n: nat)
    requires 1 <= month <= 12
    ensures 28 <= n <= 31
  {
    if month == 2 then (if IsLeapYear(year) then 29 else 28)
    else if month == 4 || month == 6 || month == 9 || month == 11 then 30
    else 31
  }

  /** The dates `datetime` can hold: years 1 to 9999, real months and days. */
  predicate ValidDate(d: Date)
  {
    1 <= d.year <= 9999 && 1 <= d.month <= 12 && 1 <= d.day <= DaysInMonth(d.year, d.month)
  }

  /** `d` comes strictly before `e` on the calendar. */
  predicate DateBefore(d: Date, e: Date)
  {
    d.year < e.year
    || (d.year == e.year && (d.month < e.month || (d.month == e.month && d.day < e.day)))
  }

  /** `d.isoformat()`: `YYYY-MM-DD`, every part zero-padded. */
  function IsoText(d: Date): (s: string)
    ensures |s| == 10
  {
    Pad(d.year, 4) + (['-'] + (Pad(d.month, 2) + (['-'] + Pad(d.day, 2))))
  }

  /** `datetime.strptime(s, "%Y-%m-%d")` on the strict form: four, two and
      two digits joined by dashes, naming a real date. `None` where Python
      raises `ValueError`. */
  function ParseIso(s: string): (r: Option<Date>)
    ensures r.Some? ==> ValidDate(r.value)
  {
    if |s| == 10 && s[4] == '-' && s[7] == '-'
       && AllDigits(s[..4]) && AllDigits(s[5..7]) && AllDigits(s[8..])
    then
      var d := Date(DigitsValue(s[..4]), DigitsValue(s[5..7]), DigitsValue(s[8..]));
      if ValidDate(d) then Some(d) else None
    else None
  }

  /** `%b` in the C locale. */
  function MonthAbbrev(month: nat): (s: string)
    requires 1 <= month <= 12
    ensures |s| == 3
  {
    match month
    case 1 => "Jan" case 2 => "Feb" case 3 => "Mar" case 4 => "Apr"
    case 5 => "May" case 6 => "Jun" case 7 => "Jul" case 8 => "Aug"
    case 9 => "Sep" case 10 => "Oct" case 11 => "Nov" case _ => "Dec"
  }

  /** `d.strftime("%b %d, %Y")`. */
  function Strftime(d: Date): (s: string)
    requires ValidDate(d)
    ensures |s| == 12
  {
    MonthAbbrev(d.month) + (" " + (Pad(d.day, 2) + (", " + Pad(d.year, 4))))
  }

  /** `format_date(date_str)`: `""` for a missing or empty value, the
      display form of a date `strptime` accepts, and the value itself for
      anything else. */
  function FormatDate(dateStr: Option<string>): string
  {
    if dateStr.None? || dateStr.value == "" then ""
    else
      match ParseIso(dateStr.value)
      case Some(d) => Strftime(d)
      case None => dateStr.value
  }

  /* ---------------------------------------------------------------------
     Properties.
     --------------------------------------------------------------------- */

  /** The padded parts of a valid date read back as the parts. */
  lemma ValidDateParts(d: Date)
    requires ValidDate(d)
    ensures DigitsValue(Pad(d.year, 4)) == d.year
    ensures DigitsValue(Pad(d.month, 2)) == d.month
    ensures DigitsValue(Pad(d.day, 2)) == d.day
  {
    assert Pow10(2) == 100 && Pow10(4) == 10000;
    PadValue(d.year, 4);
    PadValue(d.month, 2);
    PadValue(d.day, 2);
  }

  /** `strptime` reads back what `isoformat` writes. */
  lemma ParseIsoText(d: Date)
    requires ValidDate(d)
    ensures ParseIso(IsoText(d)) == Some(d)
  {
    var s := IsoText(d);
    assert s[..4] == Pad(d.year, 4);
    assert s[5..7] == Pad(d.month, 2);
    assert s[8..] == Pad(d.day, 2);
    assert s[4] == '-' && s[7] == '-';
    ValidDateParts(d);
  }

  /** Only the strict form is accepted: whatever `strptime` accepts is the
      `isoformat` of the date it yields. */
  lemma ParseIsoExact(s: string)
    requires ParseIso(s).Some?
    ensures IsoText(ParseIso(s).value) == s
  {
    var d := ParseIso(s).value;
    PadDigitsValue(s[..4]);
    PadDigitsValue(s[5..7]);
    PadDigitsValue(s[8..]);
    assert s == s[..4] + (['-'] + (s[5..7] + (['-'] + s[8..])));
  }

  /** The text of a valid date begins with a letter, never a digit. */
  lemma StrftimeStartsWithLetter(d: Date)
    requires ValidDate(d)
    ensures !IsDigit(Strftime(d)[0])
  {
    assert Strftime(d)[0] == MonthAbbrev(d.month)[0];
  }

  /** `format_date` returns its argument unchanged exactly when `strptime`
      refuses it; an accepted date is always rewritten. */
  lemma FormatDateUnchanged(s: string)
    requires s != ""
    ensures FormatDate(Some(s)) == s <==> ParseIso(s).None?
  {
    match ParseIso(s)
    case None =>
    case Some(d) =>
      ParseIsoExact(s);
      StrftimeStartsWithLetter(d);
      assert s[0] == Pad(d.year, 4)[0];
  }

  /** Blank input: `""`. */
  lemma FormatDateBlank(dateStr: Option<string>)
    requires dateStr.Some? ==> dateStr.value == ""
    ensures FormatDate(dateStr) == ""
  {
  }

  /** A stored date is shown as `Mon DD, YYYY`. */
  lemma FormatDateIso(d: Date)
    requires ValidDate(d)
    ensures FormatDate(Some(IsoText(d))) == Strftime(d)
  {
    ParseIsoText(d);
  }

  lemma MonthAbbrevInjective(m1: nat, m2: nat)
    requires 1 <= m1 <= 12 && 1 <= m2 <= 12 && MonthAbbrev(m1) == MonthAbbrev(m2)
    ensures m1 == m2
  {
  }

  /** Two different dates are never shown alike. */
  lemma StrftimeInjective(d: Date, e: Date)
    requires ValidDate(d) && ValidDate(e) && Strftime(d) == Strftime(e)
    ensures d == e
  {
    var s, t := Strftime(d), Strftime(e);
    assert MonthAbbrev(d.month) == s[..3] == t[..3] == MonthAbbrev(e.month);
    MonthAbbrevInjective(d.month, e.month);
    assert Pad(d.day, 2) == s[4..6] == t[4..6] == Pad(e.day, 2);
    assert Pad(d.year, 4) == s[8..] == t[8..] == Pad(e.year, 4);
    ValidDateParts(d);
    ValidDateParts(e);
  }

  /** Stored dates sort as text exactly as they sort on the calendar, so
      `ORDER BY date` is chronological. */
  lemma IsoTextOrder(d: Date, e: Date)
    requires ValidDate(d) && ValidDate(e)
    ensures TextLess(IsoText(d), IsoText(e)) <==> DateBefore(d, e)
  {
    assert Pow10(2) == 100 && Pow10(4) == 10000;
    PadOrder(d.day, e.day, 2);
    PadOrder(d.month, e.month, 2);
    PadOrder(d.year, e.year, 4);
    TextLessDashed(Pad(d.month, 2), Pad(d.day, 2), Pad(e.month, 2), Pad(e.day, 2));
    var dRest := Pad(d.month, 2) + (['-'] + Pad(d.day, 2));
    var eRest := Pad(e.month, 2) + (['-'] + Pad(e.day, 2));
    TextLessDashed(Pad(d.year, 4), dRest, Pad(e.year, 4), eRest);
  }

  /** Comparing `a + "-" + r` texts whose `a` parts have one length. */
  lemma TextLessDashed(a1: string, r1: string, a2: string, r2: string)
    requires |a1| == |a2|
    ensures TextLess(a1 + (['-'] + r1), a2 + (['-'] + r2)) <==> TextLess(a1, a2) || (a1 == a2 && TextLess(r1, r2))
  {
    TextLessConcat(a1, ['-'] + r1, a2, ['-'] + r2);
    TextLessConcat(['-'], r1, ['-'], r2);
    TextLessIrreflexive(['-']);
  }

  /** Below 10^width, padded numbers compare as the numbers do. */
  lemma PadOrder(x: nat, y: nat, width: nat)
    requires x < Pow10(width) && y < Pow10(width)
    ensures TextLess(Pad(x, width), Pad(y, width)) <==> x < y
    ensures Pad(x, width) == Pad(y, width) <==> x == y
  {
    TextLessPad(x, y, width);
    DivModUnique(x, Pow10(width), 0, x);
    DivModUnique(y, Pow10(width), 0, y);
    PadValue(x, width);
    PadValue(y, width);
  }

  /** The example the helper's documentation gives. */
  lemma FormatDateExample()
    ensures FormatDate(Some("2026-01-28")) == "Jan 28, 2026"
  {
    var d := Date(2026, 1, 28);
    assert IsoText(d) == "2026-01-28";
    FormatDateIso(d);
  }
}
