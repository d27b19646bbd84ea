/** Calendar dates as Python's `datetime.date` numbers them: day 1 is
    0001-01-01 of the proleptic Gregorian calendar and the last representable
    day is 9999-12-31. A date is stored in the database as its ISO text
    `YYYY-MM-DD` (`date.isoformat()`); `date(x) BETWEEN date(?) AND date(?)`
    over such texts compares the day numbers. */
module Dates {
  import opened Common

  const MIN_DAY := 1
  const MAX_DAY := 3652059

  /** A day number that `datetime.date` can represent. */
  predicate ValidDay(n: int)
  {
    MIN_DAY <= n <= MAX_DAY
  }

  datatype Date = Date(year: int, month: int, day: int)

  predicate IsLeap(y: int)
  {
    y % 4 == 0 && (y % 100 != 0 || y % 400 == 0)
  }

  function DaysInYear(y: int): int
  {
    if IsLeap(y) then 366 else 365
  }

  function DaysInMonth(y: int, m: int): int
    requires 1 <= m <= 12
  {
    if m == 2 then (if IsLeap(y) then 29 else 28)
    else if m == 4 || m == 6 || m == 9 || m == 11 then 30
    else 31
  }

  /** Days in the months of year `y` before month `m`. */
  function DaysBeforeMonth(y: int, m: int): int
    requires 1 <= m <= 12
  {
    [0, 31, 59, 90, 120, 151, 181, 212, 243, 273, 304, 334][m - 1]
      + (if m > 2 && IsLeap(y) then 1 else 0)
  }

  /** Days in the years before year `y`. */
  function DaysBeforeYear(y: int): int
    requires y >= 1
  {
    var p := y - 1;
    p * 365 + p / 4 - p / 100 + p / 400
  }

  predicate ValidDate(d: Date)
  {
    1 <= d.year <= 9999 && 1 <= d.month <= 12 && 1 <= d.day <= DaysInMonth(d.year, d.month)
  }

  function ToOrdinal(d: Date): int
    requires ValidDate(d)
  {
    DaysBeforeYear(d.year) + DaysBeforeMonth(d.year, d.month) + d.day
  }

  lemma DaysBeforeYearStep(y: int)
    requires y >= 1
    ensures DaysBeforeYear(y + 1) == DaysBeforeYear(y) + DaysInYear(y)
  {
    var p := y - 1;
    assert y / 4 == p / 4 + (if y % 4 == 0 then 1 else 0);
    assert y / 100 == p / 100 + (if y % 100 == 0 then 1 else 0);
    assert y / 400 == p / 400 + (if y % 400 == 0 then 1 else 0);
  }

  lemma DaysBeforeYearMonotone(a: int, b: int)
    requires 1 <= a <= b
    ensures DaysBeforeYear(a) <= DaysBeforeYear(b)
  {
  }

  lemma DaysBeforeMonthStep(y: int, m: int)
    requires 1 <= m < 12
    ensures DaysBeforeMonth(y, m + 1) == DaysBeforeMonth(y, m) + DaysInMonth(y, m)
  {
  }

  lemma DaysBeforeDecember(y: int)
    ensures DaysBeforeMonth(y, 12) + DaysInMonth(y, 12) == DaysInYear(y)
  {
  }

  /** The date `n - 1` days after the first day of month `m` of year `y`. */
  function MonthFrom(n: int, y: int, m: int): (d: Date)
    requires 1 <= y <= 9999 && 1 <= m <= 12
    requires 1 <= n && DaysBeforeMonth(y, m) + n <= DaysInYear(y)
    ensures ValidDate(d) && d.year == y
    ensures DaysBeforeMonth(y, d.month) + d.day == DaysBeforeMonth(y, m) + n
    decreases 12 - m
  {
    DaysBeforeDecember(y);
    if n > DaysInMonth(y, m) then
      DaysBeforeMonthStep(y, m);
      MonthFrom(n - DaysInMonth(y, m), y, m + 1)
    else
      Date(y, m, n)
  }

  /** The date `n - 1` days after the first day of year `y`. */
  function YearFrom(n: int, y: int): (d: Date)
    requires 1 <= y && 1 <= n && DaysBeforeYear(y) + n <= MAX_DAY
    ensures ValidDate(d) && ToOrdinal(d) == DaysBeforeYear(y) + n
    decreases n
  {
    DaysBeforeYearStep(y);
    if n > DaysInYear(y) then
      YearFrom(n - DaysInYear(y), y + 1)
    else
      if y > 9999 then
        DaysBeforeYearMonotone(10000, y);
        assert false;
        Date(y, 1, 1)
      else
        MonthFrom(n, y, 1)
  }

  /** `date.fromordinal(n)`. */
  function FromOrdinal(n: int): (d: Date)
    requires ValidDay(n)
    ensures ValidDate(d) && ToOrdinal(d) == n
  {
    YearFrom(n, 1)
  }

  function Digit(n: int): char
    requires 0 <= n <= 9
  {
    ('0' as int + n) as char
  }

  function DigitValue(c: char): Option<int>
  {
    if '0' <= c <= '9' then Some(c as int - '0' as int) else None
  }

  /** A number written with exactly `width` decimal digits, leading zeros
      included (`%04d`, `%02d`). */
  function Padded(n: nat, width: nat): (s: string)
    requires n < Power10(width)
    ensures |s| == width
    ensures forall i :: 0 <= i < |s| ==> '0' <= s[i] <= '9'
  {
    if width == 0 then "" else Padded(n / 10, width - 1) + [Digit(n % 10)]
  }

  function Power10(k: nat): nat
  {
    if k == 0 then 1 else 10 * Power10(k - 1)
  }

  /** Reads a run of decimal digits; None when a character is not a digit. */
  function ParseDigits(s: string): Option<nat>
  {
    if s == [] then Some(0)
    else
      match (ParseDigits(s[..|s| - 1]), DigitValue(s[|s| - 1]))
      case (Some(high), Some(low)) => Some(10 * high + low)
      case _ => None
  }

  lemma {:induction false} ParsePadded(n: nat, width: nat)
    requires n < Power10(width)
    ensures ParseDigits(Padded(n, width)) == Some(n)
  {
    if width > 0 {
      var s := Padded(n, width);
      assert s[..|s| - 1] == Padded(n / 10, width - 1);
      ParsePadded(n / 10, width - 1);
    }
  }

  /** `date.isoformat()`: the text `YYYY-MM-DD`. */
  function IsoFormat(n: int): (s: string)
    requires ValidDay(n)
    ensures |s| == 10 && s[4] == '-' && s[7] == '-'
    ensures forall i :: 0 <= i < 10 && i != 4 && i != 7 ==> '0' <= s[i] <= '9'
  {
    var d := FromOrdinal(n);
    Padded(d.year, 4) + "-" + Padded(d.month, 2) + "-" + Padded(d.day, 2)
  }

  /** Reads the text `YYYY-MM-DD` of a real calendar date back as its day
      number; None for any other text. */
  function ParseIso(s: string): Option<int>
  {
    if |s| != 10 || s[4] != '-' || s[7] != '-' then None
    else
      match (ParseDigits(s[..4]), ParseDigits(s[5..7]), ParseDigits(s[8..]))
      case (Some(y), Some(m), Some(d)) =>
        if ValidDate(Date(y, m, d)) then Some(ToOrdinal(Date(y, m, d))) else None
      case _ => None
  }

  /** The ISO text of a day reads back as that day: storing `fecha_ingreso`
      as text and comparing `date(...)` loses nothing. */
  lemma IsoRoundTrip(n: int)
    requires ValidDay(n)
    ensures ParseIso(IsoFormat(n)) == Some(n)
  {
    var d := FromOrdinal(n);
    var s := IsoFormat(n);
    assert s[..4] == Padded(d.year, 4);
    assert s[5..7] == Padded(d.month, 2);
    assert s[8..] == Padded(d.day, 2);
    ParsePadded(d.year, 4);
    ParsePadded(d.month, 2);
    ParsePadded(d.day, 2);
  }

  /** Different days have different ISO texts. */
  lemma IsoInjective(a: int, b: int)
    requires ValidDay(a) && ValidDay(b) && IsoFormat(a) == IsoFormat(b)
    ensures a == b
  {
    IsoRoundTrip(a);
    IsoRoundTrip(b);
  }
}
