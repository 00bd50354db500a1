/**
 * The proleptic Gregorian calendar as Python's `datetime.date` implements it:
 * years 1..9999, tuple-ordered comparison, day ordinals counted from
 * 01.01.0001 (ordinal 1) and weekdays with Monday = 0.
 */
module Calendar {
  import opened Wrappers
  import opened Errors

  const MinYear := 1
  const MaxYear := 9999

  datatype Date = Date(year: int, month: int, day: int)

  /** The last date Python can represent, 31.12.9999. */
  const MaxDate := Date(MaxYear, 12, 31)

  /** The Gregorian leap rule. */
  predicate IsLeapYear(y: int) {
    y % 4 == 0 && (y % 100 != 0 || y % 400 == 0)
  }

  function DaysInMonth(y: int, m: int): (n: int)
    requires 1 <= m <= 12
    ensures 28 <= n <= 31
    ensures n == 29 <==> m == 2 && IsLeapYear(y)
  {
    if m == 2 then (if IsLeapYear(y) then 29 else 28)
    else if m == 4 || m == 6 || m == 9 || m == 11 then 30
    else 31
  }

  function DaysInYear(y: int): int {
    if IsLeapYear(y) then 366 else 365
  }

  /** A date `datetime.date` accepts. */
  predicate ValidDate(d: Date) {
    && MinYear <= d.year <= MaxYear
    && 1 <= d.month <= 12
    && 1 <= d.day <= DaysInMonth(d.year, d.month)
  }

  /** The dates `datetime.date` can hold. */
  type CalendarDate = d: Date | ValidDate(d) witness Date(MinYear, 1, 1)

  /** Python orders dates as `(year, month, day)` tuples. */
  predicate Less(a: Date, b: Date) {
    || a.year < b.year
    || (a.year == b.year && a.month < b.month)
    || (a.year == b.year && a.month == b.month && a.day < b.day)
  }

  predicate LessEq(a: Date, b: Date) {
    Less(a, b) || a == b
  }

  /** Days in the years 1 .. y-1. */
  function DaysBeforeYear(y: int): int
    requires y >= 1
  {
    var p := y - 1;
    p * 365 + p / 4 - p / 100 + p / 400
  }

  /** Days in the months 1 .. m-1 of year y. */
  function DaysBeforeMonth(y: int, m: int): int
    requires 1 <= m <= 12
  {
    var common := [0, 31, 59, 90, 120, 151, 181, 212, 243, 273, 304, 334];
    common[m - 1] + (if m > 2 && IsLeapYear(y) then 1 else 0)
  }

  /** `date.toordinal()`: 01.01.0001 is day 1. */
  function Ordinal(d: Date): int
    requires ValidDate(d)
  {
    DaysBeforeYear(d.year) + DaysBeforeMonth(d.year, d.month) + d.day
  }

  /** `date.weekday()`: Monday is 0, Sunday is 6. */
  function Weekday(d: Date): (w: int)
    requires ValidDate(d)
    ensures 0 <= w < 7
  {
    (Ordinal(d) + 6) % 7
  }

  /** Moving k days on moves the weekday k places round the week. */
  lemma WeekdayShift(a: Date, b: Date, k: nat)
    requires ValidDate(a) && ValidDate(b)
    requires Ordinal(b) == Ordinal(a) + k
    ensures Weekday(b) == (Weekday(a) + k) % 7
  {
    ModShift(Ordinal(a) + 6, k);
  }

  lemma ModShift(x: int, k: nat)
    ensures (x + k) % 7 == (x % 7 + k) % 7
  {
    var q := x / 7;
    assert x + k == 7 * q + (x % 7 + k);
  }

  lemma QuarterStep(y: int)
    requires y >= 1
    ensures y / 4 - (y - 1) / 4 == if y % 4 == 0 then 1 else 0
  {
  }

  lemma CenturyStep(y: int)
    requires y >= 1
    ensures y / 100 - (y - 1) / 100 == if y % 100 == 0 then 1 else 0
  {
  }

  lemma QuadCenturyStep(y: int)
    requires y >= 1
    ensures y / 400 - (y - 1) / 400 == if y % 400 == 0 then 1 else 0
  {
  }

  lemma QuadCenturyIsCentury(y: int)
    requires y % 400 == 0
    ensures y % 100 == 0
  {
    var q := y / 400;
    assert y == 100 * (4 * q);
  }

  lemma CenturyIsQuarter(y: int)
    requires y % 100 == 0
    ensures y % 4 == 0
  {
    var q := y / 100;
    assert y == 4 * (25 * q);
  }

  /** A year adds exactly its own length to the day count. */
  lemma DaysBeforeNextYear(y: int)
    requires y >= 1
    ensures DaysBeforeYear(y + 1) == DaysBeforeYear(y) + DaysInYear(y)
  {
    QuarterStep(y);
    CenturyStep(y);
    QuadCenturyStep(y);
    if y % 400 == 0 {
      QuadCenturyIsCentury(y);
    }
    if y % 100 == 0 {
      CenturyIsQuarter(y);
    }
  }

  lemma {:induction false} YearsOrdered(y1: int, y2: int)
    requires 1 <= y1 < y2
    ensures DaysBeforeYear(y1) + DaysInYear(y1) <= DaysBeforeYear(y2)
    decreases y2 - y1
  {
    DaysBeforeNextYear(y1);
    if y1 + 1 < y2 {
      YearsOrdered(y1 + 1, y2);
    }
  }

  lemma MonthsOrdered(y: int, m1: int, m2: int)
    requires 1 <= m1 < m2 <= 12
    ensures DaysBeforeMonth(y, m1) + DaysInMonth(y, m1) <= DaysBeforeMonth(y, m2)
  {
  }

  lemma DaysBeforeYearEnd(y: int, m: int)
    requires 1 <= m <= 12
    ensures DaysBeforeMonth(y, m) + DaysInMonth(y, m) <= DaysInYear(y)
    ensures m == 12 ==> DaysBeforeMonth(y, m) + DaysInMonth(y, m) == DaysInYear(y)
  {
  }

  /** Tuple order implies ordinal order. */
  lemma OrdinalMonotone(a: Date, b: Date)
    requires ValidDate(a) && ValidDate(b)
    requires Less(a, b)
    ensures Ordinal(a) < Ordinal(b)
  {
    DaysBeforeYearEnd(a.year, a.month);
    if a.year < b.year {
      YearsOrdered(a.year, b.year);
    } else if a.month < b.month {
      MonthsOrdered(a.year, a.month, b.month);
    }
  }

  /** Python's tuple comparison of dates agrees with comparing their ordinals. */
  lemma LessIffOrdinal(a: Date, b: Date)
    requires ValidDate(a) && ValidDate(b)
    ensures Less(a, b) <==> Ordinal(a) < Ordinal(b)
    ensures a == b <==> Ordinal(a) == Ordinal(b)
  {
    if Less(a, b) {
      OrdinalMonotone(a, b);
    } else if Less(b, a) {
      OrdinalMonotone(b, a);
    }
  }

  lemma OrdinalAtMostMax(d: Date)
    requires ValidDate(d)
    ensures Ordinal(d) <= Ordinal(MaxDate)
  {
    LessIffOrdinal(d, MaxDate);
  }

  /** The following calendar day, or None past 31.12.9999. */
  function NextDay(d: Date): (r: Option<Date>)
    requires ValidDate(d)
    ensures r.None? <==> d == MaxDate
    ensures r.Some? ==> ValidDate(r.value) && Ordinal(r.value) == Ordinal(d) + 1
  {
    if d.day < DaysInMonth(d.year, d.month) then
      Some(d.(day := d.day + 1))
    else if d.month < 12 then
      Some(Date(d.year, d.month + 1, 1))
    else if d.year < MaxYear then
      DaysBeforeNextYear(d.year);
      DaysBeforeYearEnd(d.year, 12);
      Some(Date(d.year + 1, 1, 1))
    else
      None
  }

  /**
   * `d + timedelta(days=n)` for n >= 0: the date n days later, or None where
   * Python raises OverflowError.
   */
  function AddDays(d: Date, n: nat): (r: Option<Date>)
    requires ValidDate(d)
    ensures r.Some? <==> Ordinal(d) + n <= Ordinal(MaxDate)
    ensures r.Some? ==> ValidDate(r.value) && Ordinal(r.value) == Ordinal(d) + n
    decreases n
  {
    if n == 0 then
      OrdinalAtMostMax(d);
      Some(d)
    else
      match NextDay(d)
      case None => None
      case Some(e) => AddDays(e, n - 1)
  }

  /** `d.replace(year=y)`, with the two errors Python raises. */
  function ReplaceYear(d: Date, y: int): (r: Result<Date, Error>)
    requires ValidDate(d)
    ensures r.Ok? <==> ValidDate(Date(y, d.month, d.day))
    ensures r.Ok? ==> r.value == Date(y, d.month, d.day)
    ensures r == Err(DayOutOfRange) <==>
              MinYear <= y <= MaxYear && d.month == 2 && d.day == 29 && !IsLeapYear(y)
    ensures !(MinYear <= y <= MaxYear) ==> r == Err(YearOutOfRange(y))
  {
    if !(MinYear <= y <= MaxYear) then Err(YearOutOfRange(y))
    else if d.day > DaysInMonth(y, d.month) then Err(DayOutOfRange)
    else Ok(Date(y, d.month, d.day))
  }
}
