/**
 * Calendar dates as Python's `datetime.date` holds them, and their ISO 8601
 * extended calendar-date rendering `YYYY-MM-DD` (ISO 8601:2004 section
 * 4.1.2.2), which is what `date.isoformat()` produces.
 */
module Dates {
  import opened Wrappers
  import opened Decimal

  datatype YearMonthDay = YearMonthDay(year: int, month: int, day: int)

  /** Gregorian leap years. */
  predicate IsLeapYear(y: int) {
    y % 4 == 0 && (y % 100 != 0 || y % 400 == 0)
  }

  function DaysInMonth(y: int, m: int): (n: int)
    requires 1 <= m <= 12
  {
    if m == 2 then (if IsLeapYear(y) then 29 else 28)
    else if m == 4 || m == 6 || m == 9 || m == 11 then 30
    else 31
  }

  /** The range `datetime.date` accepts: years 1 to 9999 and a day that exists in its month. */
  predicate IsValidDate(d: YearMonthDay) {
    && 1 <= d.year <= 9999
    && 1 <= d.month <= 12
    && 1 <= d.day <= DaysInMonth(d.year, d.month)
  }

  type Date = d: YearMonthDay | IsValidDate(d) witness YearMonthDay(1, 1, 1)

  /** `date.isoformat()`: four-digit year, two-digit month and day, separated by hyphens. */
  function IsoFormat(d: Date): (s: string)
    ensures |s| == 10 && s[4] == '-' && s[7] == '-'
  {
    Padded(d.year, 4) + "-" + Padded(d.month, 2) + "-" + Padded(d.day, 2)
  }

  predicate IsoShaped(s: string) {
    && |s| == 10 && s[4] == '-' && s[7] == '-'
    && AllDigits(s[..4]) && AllDigits(s[5..7]) && AllDigits(s[8..])
  }

  /** Reads an extended-format calendar date; None unless it is well formed and names a real date. */
  function ParseIso(s: string): (r: Option<Date>)
    ensures r.Some? ==> IsoShaped(s)
  {
    if !IsoShaped(s) then None
    else
      var ymd := YearMonthDay(Value(s[..4]), Value(s[5..7]), Value(s[8..]));
      if IsValidDate(ymd) then Some(ymd) else None
  }

  /** Parsing the rendering of a date gives the date back. */
  lemma ParseIsoFormat(d: Date)
    ensures ParseIso(IsoFormat(d)) == Some(d)
  {
    var s := IsoFormat(d);
    assert s[..4] == Padded(d.year, 4);
    assert s[5..7] == Padded(d.month, 2);
    assert s[8..] == Padded(d.day, 2);
    ValueOfPadded(d.year, 4);
    ValueOfPadded(d.month, 2);
    ValueOfPadded(d.day, 2);
  }

  /** Every string that parses is the rendering of the date it parses to. */
  lemma FormatParseIso(s: string)
    requires ParseIso(s).Some?
    ensures IsoFormat(ParseIso(s).value) == s
  {
    var y, m, dd := s[..4], s[5..7], s[8..];
    var d := ParseIso(s).value;
    assert d == YearMonthDay(Value(y), Value(m), Value(dd));
    PaddedOfValue(y);
    PaddedOfValue(m);
    PaddedOfValue(dd);
    calc {
      IsoFormat(d);
      Padded(Value(y), 4) + "-" + Padded(Value(m), 2) + "-" + Padded(Value(dd), 2);
      y + "-" + m + "-" + dd;
      { assert s == y + "-" + m + "-" + dd; }
      s;
    }
  }
}
