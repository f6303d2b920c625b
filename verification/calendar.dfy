/**
 * The proleptic Gregorian calendar as JavaScript's `Date` sees it: a date is the triple
 * (getFullYear(), getMonth() + 1, getDate()), and every date has a day number (its time
 * value divided by one day). `MakeDate` is the rollover rule of `new Date(y, m, d)`,
 * `setDate`, `setMonth` and `setFullYear`: an out-of-range month index or day of month
 * is carried into the neighbouring years and months.
 */
module Calendar {

  datatype Date = Date(year: int, month: int, day: int)

  predicate IsLeapYear(y: int) {
    y % 4 == 0 && (y % 100 != 0 || y % 400 == 0)
  }

  function DaysInMonth(y: int, m: int): int {
    if m == 2 then (if IsLeapYear(y) then 29 else 28)
    else if m == 4 || m == 6 || m == 9 || m == 11 then 30
    else 31
  }

  function DaysInYear(y: int): int {
    if IsLeapYear(y) then 366 else 365
  }

  /** A real date: a month 1..12 and a day that month has. */
  predicate IsCalendarDate(d: Date) {
    1 <= d.month <= 12 && 1 <= d.day <= DaysInMonth(d.year, d.month)
  }

  /** Days from 0001-01-01 to January 1st of year `y` (negative before year 1). */
  function DaysBeforeYear(y: int): int {
    365 * (y - 1) + (y - 1) / 4 - (y - 1) / 100 + (y - 1) / 400
  }

  /** Days from January 1st of year `y` to the first day of month `m` (1..12). */
  function DaysBeforeMonth(y: int, m: int): int
    decreases m
  {
    if m <= 1 then 0 else DaysBeforeMonth(y, m - 1) + DaysInMonth(y, m - 1)
  }

  /** Days since 0001-01-01: the order JavaScript compares `Date` objects in. */
  function DayNumber(d: Date): int {
    DaysBeforeYear(d.year) + DaysBeforeMonth(d.year, d.month) + d.day - 1
  }

  /** The day number of the first day of the month with zero-based index `monthIndex`
      counted from January of `year` (indices outside 0..11 reach other years). */
  function FirstDayOfMonth(year: int, monthIndex: int): int {
    DaysBeforeYear(year + monthIndex / 12) + DaysBeforeMonth(year + monthIndex / 12, monthIndex % 12 + 1)
  }

  /** `getDay()`: 0 is Sunday; 0001-01-01 was a Monday. */
  function DayOfWeek(d: Date): (w: int)
    ensures 0 <= w < 7
  {
    (DayNumber(d) + 1) % 7
  }

  /** Calendar order of the triples, the order of their `YYYY-MM-DD` renderings. */
  predicate Precedes(a: Date, b: Date) {
    a.year < b.year || (a.year == b.year && (a.month < b.month || (a.month == b.month && a.day < b.day)))
  }

  lemma YearStep(y: int)
    ensures DaysBeforeYear(y + 1) == DaysBeforeYear(y) + DaysInYear(y)
  {
    QuotientStep4(y);
    QuotientStep100(y);
    QuotientStep400(y);
  }

  /** Going from `y - 1` to `y` raises the quotient by 4, 100 or 400 exactly at multiples. */
  lemma QuotientStep4(y: int)
    ensures y / 4 - (y - 1) / 4 == (if y % 4 == 0 then 1 else 0)
  {
  }

  lemma QuotientStep100(y: int)
    ensures y / 100 - (y - 1) / 100 == (if y % 100 == 0 then 1 else 0)
  {
  }

  lemma QuotientStep400(y: int)
    ensures y / 400 - (y - 1) / 400 == (if y % 400 == 0 then 1 else 0)
  {
  }

  lemma DaysBeforeDecember(y: int)
    ensures DaysBeforeMonth(y, 12) == 334 + (if IsLeapYear(y) then 1 else 0)
  {
    assert DaysBeforeMonth(y, 2) == 31;
    assert DaysBeforeMonth(y, 3) == DaysBeforeMonth(y, 2) + DaysInMonth(y, 2);
    assert DaysBeforeMonth(y, 4) == DaysBeforeMonth(y, 3) + 31;
    assert DaysBeforeMonth(y, 5) == DaysBeforeMonth(y, 4) + 30;
    assert DaysBeforeMonth(y, 6) == DaysBeforeMonth(y, 5) + 31;
    assert DaysBeforeMonth(y, 7) == DaysBeforeMonth(y, 6) + 30;
    assert DaysBeforeMonth(y, 8) == DaysBeforeMonth(y, 7) + 31;
    assert DaysBeforeMonth(y, 9) == DaysBeforeMonth(y, 8) + 31;
    assert DaysBeforeMonth(y, 10) == DaysBeforeMonth(y, 9) + 30;
    assert DaysBeforeMonth(y, 11) == DaysBeforeMonth(y, 10) + 31;
    assert DaysBeforeMonth(y, 12) == DaysBeforeMonth(y, 11) + 30;
  }

  lemma MonthStep(y: int, m: int)
    requires 1 <= m <= 12
    ensures m < 12 ==> DaysBeforeMonth(y, m + 1) == DaysBeforeMonth(y, m) + DaysInMonth(y, m)
    ensures m == 12 ==> DaysBeforeMonth(y, m) + DaysInMonth(y, m) == DaysInYear(y)
  {
    if m == 12 {
      DaysBeforeDecember(y);
    }
  }

  /** Earlier months of a year start earlier; a month ends no later than the year. */
  lemma {:induction false} MonthsAscend(y: int, m1: int, m2: int)
    requires 1 <= m1 < m2 <= 12
    ensures DaysBeforeMonth(y, m1) + DaysInMonth(y, m1) <= DaysBeforeMonth(y, m2)
    decreases m2 - m1
  {
    if m1 + 1 < m2 {
      MonthsAscend(y, m1 + 1, m2);
    }
  }

  lemma MonthWithinYear(y: int, m: int)
    requires 1 <= m <= 12
    ensures 0 <= DaysBeforeMonth(y, m) && DaysBeforeMonth(y, m) + DaysInMonth(y, m) <= DaysInYear(y)
  {
    MonthStep(y, 12);
    if m < 12 {
      MonthsAscend(y, m, 12);
    }
    MonthStart(y, m);
  }

  lemma {:induction false} MonthStart(y: int, m: int)
    requires 1 <= m <= 12
    ensures 0 <= DaysBeforeMonth(y, m)
  {
    if m > 1 {
      MonthStart(y, m - 1);
    }
  }

  /** The same month starts at most one day apart in two years (only February differs). */
  lemma {:induction false} MonthStartShift(y1: int, y2: int, m: int)
    requires 1 <= m <= 12
    ensures DaysBeforeMonth(y2, m) - 1 <= DaysBeforeMonth(y1, m) <= DaysBeforeMonth(y2, m) + 1
    ensures m <= 2 ==> DaysBeforeMonth(y1, m) == DaysBeforeMonth(y2, m)
  {
    if m > 1 {
      MonthStartShift(y1, y2, m - 1);
    }
  }

  /** Rolls a day of month that may exceed its month forward into the following months. */
  function Forward(y: int, m: int, d: int): Date
    requires 1 <= m <= 12 && 1 <= d
    decreases d
  {
    var ny := if m == 12 then y + 1 else y;
    var nm := if m == 12 then 1 else m + 1;
    if d <= DaysInMonth(y, m) then Date(y, m, d) else Forward(ny, nm, d - DaysInMonth(y, m))
  }

  /** Rolls a day of month below 1 backward into the preceding months. */
  function Backward(y: int, m: int, d: int): Date
    requires 1 <= m <= 12 && d < 1
    decreases -d
  {
    var py := if m == 1 then y - 1 else y;
    var pm := if m == 1 then 12 else m - 1;
    var pd := d + DaysInMonth(py, pm);
    if pd >= 1 then Date(py, pm, pd) else Backward(py, pm, pd)
  }

  /** The arguments of `new Date(year, monthIndex, day)`: a zero-based month index and a
      day of month, either of which may be out of range. */
  datatype Fields = Fields(year: int, monthIndex: int, day: int)

  /** `new Date(year, monthIndex, day)`: month index and day of month are carried into the
      neighbouring months and years, whatever their ranges. */
  function MakeDate(f: Fields): Date {
    var y := f.year + f.monthIndex / 12;
    var m := f.monthIndex % 12 + 1;
    if f.day >= 1 then Forward(y, m, f.day) else Backward(y, m, f.day)
  }

  /** The fields of a real date. */
  function FieldsOf(d: Date): Fields {
    Fields(d.year, d.month - 1, d.day)
  }

  /** Rolling forward lands on a real date, `d - 1` days after the first of month `m`. */
  lemma {:induction false} ForwardSpec(y: int, m: int, d: int)
    requires 1 <= m <= 12 && 1 <= d
    ensures IsCalendarDate(Forward(y, m, d))
    ensures DayNumber(Forward(y, m, d)) == DaysBeforeYear(y) + DaysBeforeMonth(y, m) + d - 1
    decreases d
  {
    var ny := if m == 12 then y + 1 else y;
    var nm := if m == 12 then 1 else m + 1;
    MonthStep(y, m);
    YearStep(y);
    if d > DaysInMonth(y, m) {
      ForwardSpec(ny, nm, d - DaysInMonth(y, m));
    }
  }

  /** Rolling backward lands on a real date, `1 - d` days before the first of month `m`. */
  lemma {:induction false} BackwardSpec(y: int, m: int, d: int)
    requires 1 <= m <= 12 && d < 1
    ensures IsCalendarDate(Backward(y, m, d))
    ensures DayNumber(Backward(y, m, d)) == DaysBeforeYear(y) + DaysBeforeMonth(y, m) + d - 1
    decreases -d
  {
    var py := if m == 1 then y - 1 else y;
    var pm := if m == 1 then 12 else m - 1;
    var pd := d + DaysInMonth(py, pm);
    MonthStep(py, pm);
    YearStep(py);
    if pd < 1 {
      BackwardSpec(py, pm, pd);
    }
  }

  /** `new Date(year, monthIndex, day)` is a real date, `day - 1` days after the first day
      of month `monthIndex` (zero-based, counted from January of `year`). */
  lemma MakeDateSpec(f: Fields)
    ensures IsCalendarDate(MakeDate(f))
    ensures DayNumber(MakeDate(f)) == FirstDayOfMonth(f.year, f.monthIndex) + f.day - 1
  {
    var y := f.year + f.monthIndex / 12;
    var m := f.monthIndex % 12 + 1;
    assert FirstDayOfMonth(f.year, f.monthIndex) == DaysBeforeYear(y) + DaysBeforeMonth(y, m);
    if f.day >= 1 {
      assert MakeDate(f) == Forward(y, m, f.day);
      ForwardSpec(y, m, f.day);
    } else {
      assert MakeDate(f) == Backward(y, m, f.day);
      BackwardSpec(y, m, f.day);
    }
  }

  /** Stepping the month index by one moves the first of the month by the length of the month left. */
  lemma MonthIndexStep(year: int, monthIndex: int)
    ensures FirstDayOfMonth(year, monthIndex + 1)
         == FirstDayOfMonth(year, monthIndex) + DaysInMonth(year + monthIndex / 12, monthIndex % 12 + 1)
  {
    var y := year + monthIndex / 12;
    var m := monthIndex % 12 + 1;
    MonthStep(y, m);
    if m == 12 {
      assert year + (monthIndex + 1) / 12 == y + 1 && (monthIndex + 1) % 12 + 1 == 1;
      YearStep(y);
    } else {
      assert year + (monthIndex + 1) / 12 == y && (monthIndex + 1) % 12 + 1 == m + 1;
    }
  }

  lemma {:induction false} YearsAscend(y1: int, y2: int)
    requires y1 < y2
    ensures DaysBeforeYear(y1) + DaysInYear(y1) <= DaysBeforeYear(y2)
    decreases y2 - y1
  {
    YearStep(y1);
    if y1 + 1 < y2 {
      YearsAscend(y1 + 1, y2);
    }
  }

  /** Day numbers order calendar dates exactly as the calendar does, and tell them apart. */
  lemma DayNumberOrder(a: Date, b: Date)
    requires IsCalendarDate(a) && IsCalendarDate(b)
    ensures DayNumber(a) < DayNumber(b) <==> Precedes(a, b)
    ensures DayNumber(a) == DayNumber(b) <==> a == b
  {
    if a.year != b.year {
      var (p, q) := if a.year < b.year then (a, b) else (b, a);
      MonthWithinYear(p.year, p.month);
      MonthStart(q.year, q.month);
      YearsAscend(p.year, q.year);
      assert DayNumber(p) < DayNumber(q);
    } else if a.month != b.month {
      var (p, q) := if a.month < b.month then (a, b) else (b, a);
      MonthsAscend(p.year, p.month, q.month);
      assert DayNumber(p) < DayNumber(q);
    }
  }

  lemma DayNumberInjective(a: Date, b: Date)
    requires IsCalendarDate(a) && IsCalendarDate(b) && DayNumber(a) == DayNumber(b)
    ensures a == b
  {
    DayNumberOrder(a, b);
  }

  /** A day of month that the target month has survives the rollover; one it lacks does not. */
  lemma ForwardKeepsDay(y: int, m: int, d: int)
    requires 1 <= m <= 12 && 1 <= d <= 31
    ensures Forward(y, m, d).day == d <==> d <= DaysInMonth(y, m)
    ensures d <= DaysInMonth(y, m) ==> Forward(y, m, d) == Date(y, m, d)
  {
  }

  /** `new Date(year, monthIndex, d)` for a day of month 1..31: the day survives exactly when
      the target month has it, and then the result is that day of the target month. */
  lemma MakeDateKeepsDay(f: Fields)
    requires 1 <= f.day <= 31
    ensures var y := f.year + f.monthIndex / 12;
            var m := f.monthIndex % 12 + 1;
            && (MakeDate(f).day == f.day <==> f.day <= DaysInMonth(y, m))
            && (f.day <= DaysInMonth(y, m) ==> MakeDate(f) == Date(y, m, f.day))
  {
    ForwardKeepsDay(f.year + f.monthIndex / 12, f.monthIndex % 12 + 1, f.day);
  }

  /** A real date is its own `new Date(year, month - 1, day)`. */
  lemma MakeDateOfDate(d: Date)
    requires IsCalendarDate(d)
    ensures MakeDate(FieldsOf(d)) == d
  {
    assert (d.month - 1) / 12 == 0 && (d.month - 1) % 12 + 1 == d.month;
    ForwardKeepsDay(d.year, d.month, d.day);
  }

  /** Adding `n` to the day of month moves the result `n` days. */
  lemma MakeDateAddDays(f: Fields, n: int)
    ensures DayNumber(MakeDate(f.(day := f.day + n))) == DayNumber(MakeDate(f)) + n
  {
    MakeDateSpec(f);
    MakeDateSpec(f.(day := f.day + n));
  }

  /** Replacing the day of month of a real date moves it by the change in the day. */
  lemma MakeDateSetDay(d: Date, day: int)
    requires IsCalendarDate(d)
    ensures IsCalendarDate(MakeDate(FieldsOf(d).(day := day)))
    ensures DayNumber(MakeDate(FieldsOf(d).(day := day))) == DayNumber(d) + (day - d.day)
  {
    MakeDateOfDate(d);
    MakeDateSpec(FieldsOf(d));
    MakeDateSpec(FieldsOf(d).(day := day));
  }

  /** Day 0 of the following month is the last day of month `m`. */
  lemma MakeDateDayZero(y: int, m: int)
    requires 1 <= m <= 12
    ensures MakeDate(Fields(y, m, 0)) == Date(y, m, DaysInMonth(y, m))
  {
    if m == 12 {
      assert MakeDate(Fields(y, m, 0)) == Backward(y + 1, 1, 0);
    } else {
      assert MakeDate(Fields(y, m, 0)) == Backward(y, m + 1, 0);
    }
  }

  /** `d.setDate(day)`: the day of month replaced, rolling over into neighbouring months;
      on a real date it moves the date by the change in the day of month. */
  function SetDate(d: Date, day: int): (r: Date)
    ensures IsCalendarDate(d) ==> IsCalendarDate(r) && DayNumber(r) == DayNumber(d) + (day - d.day)
  {
    if IsCalendarDate(d) then
      MakeDateSetDay(d, day);
      MakeDate(FieldsOf(d).(day := day))
    else
      MakeDate(FieldsOf(d).(day := day))
  }

  /** Adding one to the month index moves the result later. */
  lemma MakeDateNextMonth(f: Fields)
    ensures DayNumber(MakeDate(f)) < DayNumber(MakeDate(f.(monthIndex := f.monthIndex + 1)))
  {
    MakeDateSpec(f);
    MakeDateSpec(f.(monthIndex := f.monthIndex + 1));
    MonthIndexStep(f.year, f.monthIndex);
  }

  /** Adding one to the year moves the result later. */
  lemma MakeDateNextYear(f: Fields)
    requires 0 <= f.monthIndex < 12
    ensures DayNumber(MakeDate(f)) < DayNumber(MakeDate(f.(year := f.year + 1)))
  {
    FirstDayNextYear(f.year, f.monthIndex);
    MakeDateSpec(f);
    MakeDateSpec(f.(year := f.year + 1));
  }

  lemma FirstDayNextYear(year: int, monthIndex: int)
    requires 0 <= monthIndex < 12
    ensures FirstDayOfMonth(year, monthIndex) < FirstDayOfMonth(year + 1, monthIndex)
  {
    var m := monthIndex + 1;
    assert monthIndex / 12 == 0 && monthIndex % 12 == monthIndex;
    assert FirstDayOfMonth(year, monthIndex) == DaysBeforeYear(year) + DaysBeforeMonth(year, m);
    assert FirstDayOfMonth(year + 1, monthIndex) == DaysBeforeYear(year + 1) + DaysBeforeMonth(year + 1, m);
    YearStep(year);
    assert DaysInYear(year) >= 365;
    MonthStartShift(year, year + 1, m);
  }
}
