/**
 * Proleptic Gregorian dates as Python's datetime.date sees them: dates are
 * compared field by field, the ordinal of 0001-01-01 is 1, weekday() is
 * (ordinal + 6) % 7 with 0 = Monday, and only years 1..9999 can be held.
 */
module Calendar {
  import opened Wrappers

  const MAX_YEAR := 9999

  datatype Date = Date(year: int, month: int, day: int)

  predicate IsLeapYear(y: int) {
    y % 4 == 0 && (y % 100 != 0 || y % 400 == 0)
  }

  function YearLength(y: int): int {
    if IsLeapYear(y) then 366 else 365
  }

  function DaysInMonth(y: int, m: int): (n: int)
    requires 1 <= m <= 12
    ensures 28 <= n <= 31
  {
    if m == 2 then (if IsLeapYear(y) then 29 else 28)
    else if m == 4 || m == 6 || m == 9 || m == 11 then 30
    else 31
  }

  /** A day of the proleptic Gregorian calendar, with no upper bound on the year. */
  predicate IsCalendarDate(d: Date) {
    1 <= d.year && 1 <= d.month <= 12 && 1 <= d.day <= DaysInMonth(d.year, d.month)
  }

  /** A date that Python's date type can hold. */
  predicate IsValid(d: Date) {
    IsCalendarDate(d) && d.year <= MAX_YEAR
  }

  /** Python's comparison `a < b` of two dates: year, then month, then day. */
  predicate Before(a: Date, b: Date) {
    a.year < b.year || (a.year == b.year && (a.month < b.month || (a.month == b.month && a.day < b.day)))
  }

  /** The number of days in the years before y, counted year by year. */
  function DaysBeforeYear(y: int): int
    requires 1 <= y
    decreases y
  {
    if y == 1 then 0 else DaysBeforeYear(y - 1) + YearLength(y - 1)
  }

  /** The number of days in the months of year y before month m, summed month by month. */
  function DaysBeforeMonth(y: int, m: int): (n: int)
    requires 1 <= m <= 12
    ensures 0 <= n
    decreases m
  {
    if m == 1 then 0 else DaysBeforeMonth(y, m - 1) + DaysInMonth(y, m - 1)
  }

  /** date.toordinal(): the number of days since 0000-12-31. */
  function Ordinal(d: Date): int
    requires IsCalendarDate(d)
  {
    DaysBeforeYear(d.year) + DaysBeforeMonth(d.year, d.month) + d.day
  }

  /** date.weekday(): 0 is Monday, 5 Saturday, 6 Sunday. */
  function Weekday(d: Date): int
    requires IsCalendarDate(d)
  {
    (Ordinal(d) + 6) % 7
  }

  lemma YearStep(y: int)
    requires 1 <= y
    ensures DaysBeforeYear(y + 1) == DaysBeforeYear(y) + YearLength(y)
  {
  }

  /** The year count agrees with the closed form date.toordinal() uses (_days_before_year). */
  lemma {:induction false} DaysBeforeYearFormula(y: int)
    requires 1 <= y
    ensures DaysBeforeYear(y) == (y - 1) * 365 + (y - 1) / 4 - (y - 1) / 100 + (y - 1) / 400
    decreases y
  {
    if y > 1 {
      DaysBeforeYearFormula(y - 1);
      FormulaStep(y - 1, DaysBeforeYear(y - 1), YearLength(y - 1));
    }
  }

  /** One more year in the closed form adds that year's length. */
  lemma FormulaStep(q: int, before: int, length: int)
    requires before == (q - 1) * 365 + (q - 1) / 4 - (q - 1) / 100 + (q - 1) / 400
    requires length == YearLength(q)
    ensures before + length == q * 365 + q / 4 - q / 100 + q / 400
  {
    LeapCounts(q);
    Multiples(q);
  }

  /** A multiple of 400 is a multiple of 100, and a multiple of 100 is a multiple of 4. */
  lemma Multiples(q: int)
    ensures q % 400 == 0 ==> q % 100 == 0
    ensures q % 100 == 0 ==> q % 4 == 0
  {
    if q % 400 == 0 {
      var m := 4 * (q / 400);
      assert q == 100 * m;
      HundredsOf(m);
    }
    if q % 100 == 0 {
      var m := 25 * (q / 100);
      assert q == 4 * m;
      FoursOf(m);
    }
  }

  lemma HundredsOf(m: int)
    ensures (100 * m) % 100 == 0
  {
  }

  lemma FoursOf(m: int)
    ensures (4 * m) % 4 == 0
  {
  }

  /** The counts of multiples of 4, 100 and 400 up to q each grow by one exactly when q is such a multiple. */
  lemma LeapCounts(q: int)
    ensures q / 4 - (q - 1) / 4 == (if q % 4 == 0 then 1 else 0)
    ensures q / 100 - (q - 1) / 100 == (if q % 100 == 0 then 1 else 0)
    ensures q / 400 - (q - 1) / 400 == (if q % 400 == 0 then 1 else 0)
  {
  }

  /** The day after d. */
  function NextDay(d: Date): (r: Date)
    requires IsCalendarDate(d)
    ensures IsCalendarDate(r) && Ordinal(r) == Ordinal(d) + 1
  {
    if d.day < DaysInMonth(d.year, d.month) then
      Date(d.year, d.month, d.day + 1)
    else if d.month < 12 then
      Date(d.year, d.month + 1, 1)
    else
      YearStep(d.year);
      Date(d.year + 1, 1, 1)
  }

  /** d + timedelta(days=n), on the unbounded calendar. */
  function AddDays(d: Date, n: nat): (r: Date)
    requires IsCalendarDate(d)
    ensures IsCalendarDate(r) && Ordinal(r) == Ordinal(d) + n
    decreases n
  {
    if n == 0 then d else AddDays(NextDay(d), n - 1)
  }

  /** date.replace(year=y): the same month and day in year y, if that date exists. */
  function ReplaceYear(d: Date, y: int): (r: Option<Date>)
    requires IsValid(d)
    ensures r.Some? ==> IsValid(r.value) && r.value == Date(y, d.month, d.day)
    ensures r.None? <==> y < 1 || MAX_YEAR < y || (d.month == 2 && d.day == 29 && !IsLeapYear(y))
  {
    if 1 <= y <= MAX_YEAR && d.day <= DaysInMonth(y, d.month) then Some(Date(y, d.month, d.day)) else None
  }

  /** The running sum agrees with Python's _DAYS_BEFORE_MONTH table, plus one after February in a leap year. */
  lemma {:induction false} MonthTable(y: int, m: int)
    requires 1 <= m <= 12
    ensures DaysBeforeMonth(y, m) ==
      [0, 31, 59, 90, 120, 151, 181, 212, 243, 273, 304, 334][m - 1] + (if m > 2 && IsLeapYear(y) then 1 else 0)
    decreases m
  {
    if m > 1 {
      MonthTable(y, m - 1);
    }
  }

  lemma {:induction false} MonthsOrdered(y: int, m1: int, m2: int)
    requires 1 <= m1 < m2 <= 12
    ensures DaysBeforeMonth(y, m1) + DaysInMonth(y, m1) <= DaysBeforeMonth(y, m2)
    decreases m2
  {
    if m1 + 1 < m2 {
      MonthsOrdered(y, m1, m2 - 1);
    }
  }

  lemma DayOfYearBound(d: Date)
    requires IsCalendarDate(d)
    ensures DaysBeforeMonth(d.year, d.month) + d.day <= YearLength(d.year)
  {
    MonthTable(d.year, d.month);
  }

  lemma {:induction false} YearsOrdered(y1: int, y2: int)
    requires 1 <= y1 < y2
    ensures DaysBeforeYear(y1) + YearLength(y1) <= DaysBeforeYear(y2)
    decreases y2 - y1
  {
    YearStep(y1);
    if y1 + 1 < y2 {
      YearsOrdered(y1 + 1, y2);
    }
  }

  lemma OrdinalMonotone(a: Date, b: Date)
    requires IsCalendarDate(a) && IsCalendarDate(b) && Before(a, b)
    ensures Ordinal(a) < Ordinal(b)
  {
    if a.year < b.year {
      DayOfYearBound(a);
      YearsOrdered(a.year, b.year);
    } else if a.month < b.month {
      MonthsOrdered(a.year, a.month, b.month);
    }
  }

  /** Python's field-by-field date comparison orders dates as their ordinals do. */
  lemma BeforeIffOrdinalLess(a: Date, b: Date)
    requires IsCalendarDate(a) && IsCalendarDate(b)
    ensures Before(a, b) <==> Ordinal(a) < Ordinal(b)
    ensures a == b <==> Ordinal(a) == Ordinal(b)
  {
    if Before(a, b) {
      OrdinalMonotone(a, b);
    } else if Before(b, a) {
      OrdinalMonotone(b, a);
    }
  }

  lemma ModAdd(a: int, k: int)
    requires 0 <= a % 7 + k < 7
    ensures (a + k) % 7 == a % 7 + k
  {
    var q := a / 7;
    assert a + k == 7 * q + (a % 7 + k);
  }

  /** The weekday advances by one, modulo seven, each day. */
  lemma {:induction false} WeekdayAfter(d: Date, n: nat)
    requires IsCalendarDate(d)
    ensures Weekday(AddDays(d, n)) == (Weekday(d) + n) % 7
  {
    ShiftMod(Ordinal(d), n, Weekday(d), Weekday(AddDays(d, n)));
  }

  lemma ShiftMod(a: int, n: int, w: int, v: int)
    requires w == (a + 6) % 7 && v == (a + n + 6) % 7
    ensures v == (w + n) % 7
  {
    var q := (a + 6) / 7;
    assert a + 6 + n == 7 * q + (w + n);
  }

  /** 9999-12-31, the last date Python can represent, is a Friday. */
  lemma LastDateIsFriday()
    ensures Ordinal(Date(MAX_YEAR, 12, 31)) == 3652059
    ensures Weekday(Date(MAX_YEAR, 12, 31)) == 4
  {
    DaysBeforeYearFormula(MAX_YEAR);
    MonthTable(MAX_YEAR, 12);
  }

  /** No date Python can hold lies after 9999-12-31. */
  lemma OrdinalAtMostLast(d: Date)
    requires IsValid(d)
    ensures Ordinal(d) <= 3652059
  {
    LastDateIsFriday();
    BeforeIffOrdinalLess(Date(MAX_YEAR, 12, 31), d);
  }

  /** A calendar date whose ordinal is at most that of 9999-12-31 is one Python can hold. */
  lemma WithinLastIsValid(d: Date)
    requires IsCalendarDate(d) && Ordinal(d) <= 3652059
    ensures d.year <= MAX_YEAR
  {
    LastDateIsFriday();
    BeforeIffOrdinalLess(Date(MAX_YEAR, 12, 31), d);
  }
}
