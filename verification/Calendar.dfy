/** The proleptic Gregorian calendar in UTC, on minutes and days counted from
    1 January of year 1 (the zero time of the source), in both directions. */
module Calendar {

  datatype Date = Date(year: int, month: int, day: int)

  predicate Leap(y: int) {
    y % 4 == 0 && (y % 100 != 0 || y % 400 == 0)
  }

  function DaysIn(leap: bool, m: int): (d: int)
    requires 1 <= m <= 12
    ensures 28 <= d <= 31
  {
    if m == 2 then (if leap then 29 else 28)
    else if m == 4 || m == 6 || m == 9 || m == 11 then 30
    else 31
  }

  function DaysBeforeMonth(leap: bool, m: int): (d: int)
    requires 1 <= m <= 13
    ensures 0 <= d <= 366
  {
    var table := [0, 31, 59, 90, 120, 151, 181, 212, 243, 273, 304, 334, 365];
    table[m - 1] + (if leap && m > 2 then 1 else 0)
  }

  function DaysBeforeYear(y: int): (n: int) {
    365 * (y - 1) + (y - 1) / 4 - (y - 1) / 100 + (y - 1) / 400
  }

  predicate ValidDate(dt: Date) {
    1 <= dt.month <= 12 && 1 <= dt.day <= DaysIn(Leap(dt.year), dt.month)
  }

  function DayNumber(dt: Date): (n: int)
    requires ValidDate(dt)
  {
    DaysBeforeYear(dt.year) + DaysBeforeMonth(Leap(dt.year), dt.month) + dt.day - 1
  }

  lemma FoursUpTo(y: int)
    ensures y / 4 == (y - 1) / 4 + (if y % 4 == 0 then 1 else 0)
  {
  }

  lemma HundredsUpTo(y: int)
    ensures y / 100 == (y - 1) / 100 + (if y % 100 == 0 then 1 else 0)
  {
  }

  lemma FourHundredsUpTo(y: int)
    ensures y / 400 == (y - 1) / 400 + (if y % 400 == 0 then 1 else 0)
  {
  }

  lemma FourTimes(x: int)
    ensures (4 * x) % 4 == 0
  {
  }

  lemma HundredTimes(x: int)
    ensures (100 * x) % 100 == 0
  {
  }

  lemma LeapCases(y: int)
    ensures (y % 400 == 0 ==> y % 100 == 0) && (y % 100 == 0 ==> y % 4 == 0)
  {
    var h, f := y / 100, y / 400;
    if y % 100 == 0 { FourTimes(25 * h); }
    if y % 400 == 0 { HundredTimes(4 * f); }
  }

  lemma YearLength(y: int)
    ensures DaysBeforeYear(y + 1) == DaysBeforeYear(y) + (if Leap(y) then 366 else 365)
  {
    FoursUpTo(y);
    HundredsUpTo(y);
    FourHundredsUpTo(y);
    LeapCases(y);
  }

  lemma {:induction false} YearsOrdered(a: int, b: int)
    requires a < b
    ensures DaysBeforeYear(a + 1) <= DaysBeforeYear(b)
    decreases b - a
  {
    if a + 1 < b {
      YearLength(a + 1);
      YearsOrdered(a + 1, b);
    }
  }

  function YearFrom(y: int, n: int): (r: int)
    requires DaysBeforeYear(y) <= n
    ensures DaysBeforeYear(r) <= n < DaysBeforeYear(r + 1)
    decreases n - DaysBeforeYear(y)
  {
    YearLength(y);
    if n < DaysBeforeYear(y + 1) then y else YearFrom(y + 1, n)
  }

  /** The year of a day: the only one whose span holds it. */
  function YearOf(n: int): (y: int)
    ensures DaysBeforeYear(y) <= n < DaysBeforeYear(y + 1)
  {
    YearFrom(if n >= 0 then n / 366 + 1 else n / 365 + 1, n)
  }

  lemma YearUnique(n: int, y: int)
    requires DaysBeforeYear(y) <= n < DaysBeforeYear(y + 1)
    ensures YearOf(n) == y
  {
    var z := YearOf(n);
    if z < y { YearsOrdered(z, y); }
    if y < z { YearsOrdered(y, z); }
  }

  function MonthOf(leap: bool, k: int): (m: int)
    requires 0 <= k < (if leap then 366 else 365)
    ensures 1 <= m <= 12 && DaysBeforeMonth(leap, m) <= k < DaysBeforeMonth(leap, m + 1)
  {
    if k < DaysBeforeMonth(leap, 2) then 1
    else if k < DaysBeforeMonth(leap, 3) then 2
    else if k < DaysBeforeMonth(leap, 4) then 3
    else if k < DaysBeforeMonth(leap, 5) then 4
    else if k < DaysBeforeMonth(leap, 6) then 5
    else if k < DaysBeforeMonth(leap, 7) then 6
    else if k < DaysBeforeMonth(leap, 8) then 7
    else if k < DaysBeforeMonth(leap, 9) then 8
    else if k < DaysBeforeMonth(leap, 10) then 9
    else if k < DaysBeforeMonth(leap, 11) then 10
    else if k < DaysBeforeMonth(leap, 12) then 11
    else 12
  }

  lemma MonthLength(leap: bool, m: int)
    requires 1 <= m <= 12
    ensures DaysBeforeMonth(leap, m + 1) == DaysBeforeMonth(leap, m) + DaysIn(leap, m)
  {
  }

  lemma {:induction false} MonthsOrdered(leap: bool, a: int, b: int)
    requires 1 <= a < b <= 13
    ensures DaysBeforeMonth(leap, a + 1) <= DaysBeforeMonth(leap, b)
    decreases b - a
  {
    if a + 1 < b {
      MonthLength(leap, a + 1);
      MonthsOrdered(leap, a + 1, b);
    }
  }

  function DateOf(n: int): (dt: Date)
    ensures ValidDate(dt) && DayNumber(dt) == n
  {
    var y := YearOf(n);
    YearLength(y);
    var k := n - DaysBeforeYear(y);
    var m := MonthOf(Leap(y), k);
    MonthLength(Leap(y), m);
    Date(y, m, k - DaysBeforeMonth(Leap(y), m) + 1)
  }

  /** Days and dates correspond one to one. */
  lemma DateRoundTrip(dt: Date)
    requires ValidDate(dt)
    ensures DateOf(DayNumber(dt)) == dt
    ensures DaysBeforeYear(dt.year) <= DayNumber(dt) < DaysBeforeYear(dt.year + 1)
  {
    var n, l := DayNumber(dt), Leap(dt.year);
    YearLength(dt.year);
    MonthLength(l, dt.month);
    if dt.month < 12 { MonthsOrdered(l, dt.month, 13); }
    YearUnique(n, dt.year);
    var m := DateOf(n).month;
    MonthLength(l, m);
    if m < dt.month { MonthsOrdered(l, m, dt.month); }
    if dt.month < m { MonthsOrdered(l, dt.month, m); }
  }

  /** Sunday is 0; 1 January of year 1 was a Monday. */
  function Weekday(n: int): (w: int)
    ensures 0 <= w <= 6
  {
    (n + 1) % 7
  }

  /** Weekdays are those of the calendar: 16 January 2026 is a Friday, and each day is
      followed by the next of the week. */
  lemma WeekdaysAnchored(n: int)
    ensures DayNumber(Date(2026, 1, 16)) == 739_631 && Weekday(739_631) == 5
    ensures Weekday(n + 1) == if Weekday(n) == 6 then 0 else Weekday(n) + 1
  {
    assert DaysBeforeYear(2026) == 739_616;
  }

  lemma WholeWeeks(n: int, k: int)
    ensures Weekday(n + 7 * k) == Weekday(n)
  {
    assert n + 7 * k + 1 == (n + 1) + 7 * k;
  }

  /** The calendar, weekdays included, repeats every 400 years. */
  lemma WeekdaysRepeat(dt: Date)
    requires ValidDate(dt)
    ensures ValidDate(dt.(year := dt.year + 400)) && Weekday(DayNumber(dt.(year := dt.year + 400))) == Weekday(DayNumber(dt))
  {
    CycleLength(dt.year);
    WholeWeeks(DayNumber(dt), 20_871);
  }

  lemma CycleLength(y: int)
    ensures DaysBeforeYear(y + 400) == DaysBeforeYear(y) + 146_097 && Leap(y + 400) == Leap(y)
  {
    assert (y + 399) / 4 == (y - 1) / 4 + 100;
    assert (y + 399) / 100 == (y - 1) / 100 + 4;
    assert (y + 399) / 400 == (y - 1) / 400 + 1;
    assert (y + 400) % 4 == y % 4 && (y + 400) % 100 == y % 100 && (y + 400) % 400 == y % 400;
  }

  const DAY := 1440
}
