/**
 * The part of Python's `datetime.date` the scripts rely on: valid dates,
 * comparison, and the ISO `YYYY-MM-DD` form read by `date.fromisoformat`
 * and written by `date.isoformat`.
 */
module Dates {
  import opened Wrappers
  import opened Text

  datatype Date = Date(year: int, month: int, day: int)

  predicate IsLeapYear(y: int) {
    y % 4 == 0 && (y % 100 != 0 || y % 400 == 0)
  }

  function DaysInMonth(y: int, m: int): (n: int)
    requires 1 <= m <= 12
    ensures 28 <= n <= 31
  {
    if m == 2 then (if IsLeapYear(y) then 29 else 28)
    else if m == 4 || m == 6 || m == 9 || m == 11 then 30
    else 31
  }

  /** A date Python's `datetime.date` accepts (years 1 to 9999). */
  predicate ValidDate(d: Date) {
    1 <= d.year <= 9999 && 1 <= d.month <= 12 && 1 <= d.day <= DaysInMonth(d.year, d.month)
  }

  /** `date.fromisoformat(s)` for the form `YYYY-MM-DD`; `None` is the `ValueError`. */
  function ParseIsoDate(s: string): (r: Option<Date>)
    ensures r.Some? ==> ValidDate(r.value)
    ensures r.Some? ==> |s| == 10 && s[4] == '-' && s[7] == '-'
  {
    if |s| == 10 && s[4] == '-' && s[7] == '-' &&
       AllDigits(s[..4]) && AllDigits(s[5..7]) && AllDigits(s[8..])
    then
      var d := Date(ParseDecimal(s[..4]), ParseDecimal(s[5..7]), ParseDecimal(s[8..]));
      if ValidDate(d) then Some(d) else None
    else None
  }

  /** `date.isoformat()`: zero-padded `YYYY-MM-DD`. */
  function FormatIsoDate(d: Date): (s: string)
    requires ValidDate(d)
    ensures |s| == 10
  {
    [DigitChar(d.year / 10 / 10 / 10), DigitChar(d.year / 10 / 10 % 10), DigitChar(d.year / 10 % 10), DigitChar(d.year % 10),
     '-', DigitChar(d.month / 10), DigitChar(d.month % 10),
     '-', DigitChar(d.day / 10), DigitChar(d.day % 10)]
  }

  lemma ParseTwoDigits(s: string)
    requires |s| == 2 && AllDigits(s)
    ensures ParseDecimal(s) == DigitValue(s[0]) * 10 + DigitValue(s[1])
  {
    assert s[..1] == [s[0]];
  }

  lemma ParseFourDigits(s: string)
    requires |s| == 4 && AllDigits(s)
    ensures ParseDecimal(s) == ((DigitValue(s[0]) * 10 + DigitValue(s[1])) * 10 + DigitValue(s[2])) * 10 + DigitValue(s[3])
  {
    ParseTwoDigits(s[..2]);
    assert s[..3][..2] == s[..2];
    assert s[..3][2] == s[2];
    assert ParseDecimal(s[..3]) == ParseDecimal(s[..2]) * 10 + DigitValue(s[2]);
  }

  /** Formatting a valid date and parsing it back gives the same date. */
  lemma ParseFormatIsoDate(d: Date)
    requires ValidDate(d)
    ensures ParseIsoDate(FormatIsoDate(d)) == Some(d)
  {
    var s := FormatIsoDate(d);
    ParseFourDigits(s[..4]);
    ParseTwoDigits(s[5..7]);
    ParseTwoDigits(s[8..]);
    var y := d.year;
    var q1 := y / 10;
    var q2 := q1 / 10;
    var q3 := q2 / 10;
    assert y == q1 * 10 + y % 10;
    assert q1 == q2 * 10 + q1 % 10;
    assert q2 == q3 * 10 + q2 % 10;
    assert ((q3 * 10 + q2 % 10) * 10 + q1 % 10) * 10 + y % 10 == y;
  }

  /** Python's comparison of two dates. */
  predicate DateLess(a: Date, b: Date) {
    a.year < b.year || (a.year == b.year && (a.month < b.month || (a.month == b.month && a.day < b.day)))
  }
}
