/** The part of Python's `datetime.date` the scraper relies on: the constructor's
    range checks, the C `int` its arguments are parsed into, and `str(date)`. */
module Calendar {
  import opened Results
  import opened Strings

  /** A year, month and day, not yet checked. */
  datatype Date = Date(year: int, month: int, day: int)

  /** The proleptic Gregorian leap-year rule. */
  predicate IsLeapYear(y: int) {
    y % 4 == 0 && (y % 100 != 0 || y % 400 == 0)
  }

  /** The number of days in month `m` of year `y`. */
  function DaysInMonth(y: int, m: int): int
    requires 1 <= m <= 12
  {
    if m == 2 then (if IsLeapYear(y) then 29 else 28)
    else if m == 4 || m == 6 || m == 9 || m == 11 then 30
    else 31
  }

  /** `MINYEAR <= year <= MAXYEAR`, a month of the year and a day of that month. */
  predicate Valid(d: Date) {
    && 1 <= d.year <= 9999
    && 1 <= d.month <= 12
    && 1 <= d.day <= DaysInMonth(d.year, d.month)
  }

  /** The largest value of a C `int`, the type the constructor parses its arguments into. */
  const CIntMax: int := 0x7fff_ffff

  /** What `datetime.date(y, m, d)` does: builds a date, raises `ValueError`
      (`Rejected`) or raises `OverflowError` (`Overflow`). */
  datatype Construction = Built(date: Date) | Rejected | Overflow

  /** `datetime.date(y, m, d)` for non-negative arguments. Each argument is first
      converted to a C `int`, and one that does not fit raises `OverflowError` before any
      range is checked; only then are the year, month and day checked. */
  function Construct(y: nat, m: nat, d: nat): (c: Construction)
    ensures c.Overflow? <==> y > CIntMax || m > CIntMax || d > CIntMax
    ensures c.Built? <==> Valid(Date(y, m, d))
    ensures c.Built? ==> c.date == Date(y, m, d)
  {
    if y > CIntMax || m > CIntMax || d > CIntMax then Overflow
    else if Valid(Date(y, m, d)) then Built(Date(y, m, d))
    else Rejected
  }

  /** `str(date)`: `YYYY-MM-DD`, each field zero-padded (ISO 8601 section 5.2.1.1,
      calendar date in extended format). */
  function IsoFormat(d: Date): (r: string)
    requires Valid(d)
    ensures |r| == 10 && r[4] == '-' && r[7] == '-'
  {
    Padded(d.year, 4) + "-" + Padded(d.month, 2) + "-" + Padded(d.day, 2)
  }

  /** Reads `YYYY-MM-DD` back; anything else, or a date that does not exist, is `None`. */
  function ParseIso(t: string): (r: Option<Date>)
    ensures r.Some? ==> Valid(r.value)
    ensures r.Some? ==> |t| == 10 && t[4] == '-' && t[7] == '-'
  {
    if |t| == 10 && t[4] == '-' && t[7] == '-'
       && AllDigits(t[..4]) && AllDigits(t[5..7]) && AllDigits(t[8..])
    then
      var d := Date(DecimalValue(t[..4]), DecimalValue(t[5..7]), DecimalValue(t[8..]));
      if Valid(d) then Some(d) else None
    else None
  }

  /** Reading a formatted date gives the date back. */
  lemma IsoRoundTrip(d: Date)
    requires Valid(d)
    ensures ParseIso(IsoFormat(d)) == Some(d)
  {
    var t := IsoFormat(d);
    PaddedValue(d.year, 4);
    PaddedValue(d.month, 2);
    PaddedValue(d.day, 2);
    assert t[..4] == Padded(d.year, 4);
    assert t[5..7] == Padded(d.month, 2);
    assert t[8..] == Padded(d.day, 2);
  }

  /** Different dates are written differently. */
  lemma IsoFormatInjective(a: Date, b: Date)
    requires Valid(a) && Valid(b)
    ensures IsoFormat(a) == IsoFormat(b) <==> a == b
  {
    if IsoFormat(a) == IsoFormat(b) {
      IsoRoundTrip(a);
      IsoRoundTrip(b);
    }
  }
}
