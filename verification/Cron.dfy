/** Cron next-run search (core/cron_parser.go:143-174): it finds the least matching
    minute, and exactly which schedules are found from every starting time. */
module Cron {
  import opened Calendar
  import opened Text

  datatype Schedule = Schedule(minute: set<int>, hour: set<int>, day: set<int>, month: set<int>, weekday: set<int>,
                               dayRestricted: bool, weekdayRestricted: bool)

  predicate Between(lo: int, v: int, hi: int) {
    lo <= v <= hi
  }

  function Full(lo: int, hi: int): (s: set<int>) {
    set v: int | lo <= v <= hi && Between(lo, v, hi)
  }

  predicate FieldOk(values: set<int>, lo: int, hi: int) {
    values != {} && values <= Full(lo, hi)
  }

  predicate Meets(values: set<int>, lo: int, hi: int) {
    exists v :: v in values && lo <= v <= hi
  }

  /** What every accepted expression guarantees: fields that meet their ranges, and full
      ones where unrestricted. */
  predicate Accepted(s: Schedule) {
    && Meets(s.minute, 0, 59) && Meets(s.hour, 0, 23) && Meets(s.day, 1, 31)
    && Meets(s.month, 1, 12) && Meets(s.weekday, 0, 6)
    && (!s.dayRestricted ==> s.day == Full(1, 31))
    && (!s.weekdayRestricted ==> s.weekday == Full(0, 6))
  }

  /** The same with nothing outside the ranges. */
  predicate Parsed(s: Schedule) {
    && FieldOk(s.minute, 0, 59) && FieldOk(s.hour, 0, 23) && FieldOk(s.day, 1, 31)
    && FieldOk(s.month, 1, 12) && FieldOk(s.weekday, 0, 6)
    && (!s.dayRestricted ==> s.day == Full(1, 31))
    && (!s.weekdayRestricted ==> s.weekday == Full(0, 6))
  }

  /** Does minute `t` match? When both day fields are restricted either suffices. */
  predicate Matches(s: Schedule, t: int) {
    var date := DateOf(t / DAY);
    if t % 60 !in s.minute || (t % DAY) / 60 !in s.hour || date.month !in s.month then false
    else if s.dayRestricted && s.weekdayRestricted then date.day in s.day || Weekday(t / DAY) in s.weekday
    else date.day in s.day && Weekday(t / DAY) in s.weekday
  }

  /** A valid date at a time of day matches if and only if its minute, hour and month are listed and
      its day is: by either day field when both are restricted, by both otherwise. */
  lemma MatchesOn(s: Schedule, date: Date, h: int, mi: int)
    requires ValidDate(date) && 0 <= h <= 23 && 0 <= mi <= 59
    ensures var n := DayNumber(date);
      Matches(s, n * DAY + 60 * h + mi) <==>
        && mi in s.minute && h in s.hour && date.month in s.month
        && (if s.dayRestricted && s.weekdayRestricted then date.day in s.day || Weekday(n) in s.weekday
            else date.day in s.day && Weekday(n) in s.weekday)
  {
    var n := DayNumber(date);
    var t := n * DAY + 60 * h + mi;
    DivDay(n, 60 * h + mi);
    assert t == n * DAY + (60 * h + mi);
    TimeOfDay(h, mi, t);
    assert DateOf(n) == date by { DateRoundTrip(date); }
  }

  /** With both day fields restricted a minute matches if and only if it matches with one of them
      left open. */
  lemma EitherIff(s: Schedule, t: int)
    requires s.dayRestricted && s.weekdayRestricted
    ensures Matches(s, t) <==>
      || Matches(s.(weekday := Full(0, 6), weekdayRestricted := false), t)
      || Matches(s.(day := Full(1, 31), dayRestricted := false), t)
  {
    DayInFull(t / DAY);
  }

  lemma Thirteenth()
    ensures DayNumber(Date(2026, 1, 13)) == 739_628 && Weekday(739_628) == 2
  {
  }

  /** The thirteenth of a month or any Friday: 13 January 2026, a Tuesday, matches at midnight. */
  lemma ThirteenthMatches(s: Schedule)
    requires s == Schedule({0}, {0}, {13}, Full(1, 12), {5}, true, true)
    ensures Weekday(739_628) == 2 && Matches(s, 739_628 * DAY)
  {
    Thirteenth();
    var date := Date(2026, 1, 13);
    MatchesOn(s, date, 0, 0);
    assert 0 in s.minute && 0 in s.hour && date.month in s.month && date.day in s.day;
  }

  /** Every day has a day of the month and a weekday in range. */
  lemma DayInFull(n: int)
    ensures DateOf(n).day in Full(1, 31) && Weekday(n) in Full(0, 6)
  {
  }

  const NANOS_PER_MINUTE := 60_000_000_000
  const MAX_ITER := 527_040 // 366 days of minutes

  /** The first minute boundary after an instant given in nanoseconds. */
  function FirstMinute(from: int): (t: int)
    ensures (t - 1) * NANOS_PER_MINUTE <= from < t * NANOS_PER_MINUTE
  {
    (from + NANOS_PER_MINUTE) / NANOS_PER_MINUTE
  }

  ghost predicate FoundWithin(s: Schedule, t: int) {
    exists m :: t <= m < t + MAX_ITER && Matches(s, m)
  }

  /** Returns the least matching minute strictly after `from`, if there is one in
      the 366 days that follow, and nothing otherwise. */
  method NextRun(s: Schedule, from: int) returns (r: Option<int>)
    ensures r.Some? <==> FoundWithin(s, FirstMinute(from))
    ensures r.Some? ==> Matches(s, r.value) && r.value * NANOS_PER_MINUTE > from
    ensures r.Some? ==> forall m :: m * NANOS_PER_MINUTE > from && m < r.value ==> !Matches(s, m)
  {
    var t := FirstMinute(from);
    ghost var start := t;
    for i := 0 to MAX_ITER
      invariant t == start + i
      invariant forall m :: start <= m < t ==> !Matches(s, m)
    {
      if Matches(s, t) {
        forall m | m * NANOS_PER_MINUTE > from && m < t ensures !Matches(s, m) {
          assert m >= start;
        }
        return Some(t);
      }
      t := t + 1;
    }
    r := None;
  }

  // ----- occurrences of a date in every year

  predicate EveryYear(m: int, d: int) {
    1 <= m <= 12 && 1 <= d <= DaysIn(false, m)
  }

  /** Minute `at` of day `d` of month `m` in year `y`. */
  function At(y: int, m: int, d: int, at: int): (t: int)
    requires EveryYear(m, d) && 0 <= at < DAY
  {
    DayNumber(Date(y, m, d)) * DAY + at
  }

  lemma AtDate(y: int, m: int, d: int, at: int)
    requires EveryYear(m, d) && 0 <= at < DAY
    ensures DateOf(At(y, m, d, at) / DAY) == Date(y, m, d) && At(y, m, d, at) % DAY == at
    ensures At(y, m, d, at) / DAY == DayNumber(Date(y, m, d))
  {
    var n := DayNumber(Date(y, m, d));
    assert At(y, m, d, at) / DAY == n && At(y, m, d, at) % DAY == at by { DivDay(n, at); }
    assert DateOf(n) == Date(y, m, d) by { DateRoundTrip(Date(y, m, d)); }
  }

  lemma DivDay(n: int, at: int)
    requires 0 <= at < DAY
    ensures (n * DAY + at) / DAY == n && (n * DAY + at) % DAY == at
  {
  }

  lemma AtSpan(y: int, m: int, d: int, at: int)
    requires EveryYear(m, d) && 0 <= at < DAY
    ensures DaysBeforeYear(y) * DAY <= At(y, m, d, at) < DaysBeforeYear(y + 1) * DAY
  {
    DateRoundTrip(Date(y, m, d));
    DaySpan(DaysBeforeYear(y), DayNumber(Date(y, m, d)), DaysBeforeYear(y + 1), at);
  }

  lemma DaySpan(first: int, n: int, next: int, at: int)
    requires first <= n < next && 0 <= at < DAY
    ensures first * DAY <= n * DAY + at < next * DAY
  {
  }

  lemma AtGap(y: int, m: int, d: int, at: int)
    requires EveryYear(m, d) && 0 <= at < DAY
    ensures 365 * DAY <= At(y + 1, m, d, at) - At(y, m, d, at) <= 366 * DAY
  {
    DayGap(y, m, d);
    var n := DayNumber(Date(y + 1, m, d)) - DayNumber(Date(y, m, d));
    assert At(y + 1, m, d, at) - At(y, m, d, at) == n * DAY;
  }

  lemma NotBothLeap(y: int)
    ensures !(Leap(y) && Leap(y + 1))
  {
  }

  lemma DayGap(y: int, m: int, d: int)
    requires EveryYear(m, d)
    ensures 365 <= DayNumber(Date(y + 1, m, d)) - DayNumber(Date(y, m, d)) <= 366
  {
    YearLength(y);
    NotBothLeap(y);
    var a, b := Leap(y), Leap(y + 1);
    assert DaysBeforeMonth(b, m) - DaysBeforeMonth(a, m) == if m > 2 && a != b then (if b then 1 else -1) else 0;
  }

  /** Every date that exists in every year comes round within 366 days of any minute. */
  lemma NextOccurrence(t: int, m: int, d: int, at: int) returns (y: int)
    requires EveryYear(m, d) && 0 <= at < DAY
    ensures t <= At(y, m, d, at) < t + MAX_ITER
    ensures At(y - 1, m, d, at) < t
  {
    var y0 := YearOf(t / DAY);
    AroundYear(y0, m, d, at, t);
    if t <= At(y0, m, d, at) {
      y := y0;
    } else {
      y := y0 + 1;
      assert y - 1 == y0;
    }
  }

  lemma AroundYear(y: int, m: int, d: int, at: int, t: int)
    requires EveryYear(m, d) && 0 <= at < DAY
    requires DaysBeforeYear(y) <= t / DAY < DaysBeforeYear(y + 1)
    ensures At(y - 1, m, d, at) < t < At(y + 1, m, d, at)
    ensures At(y, m, d, at) < t + MAX_ITER && At(y + 1, m, d, at) <= At(y, m, d, at) + MAX_ITER
  {
    InYear(y, m, d, at, t);
    Outside(DaysBeforeYear(y), DaysBeforeYear(y + 1), At(y - 1, m, d, at), At(y + 1, m, d, at), t) by {
      BeforeYear(y, m, d, at);
      AfterYear(y, m, d, at);
    }
    AtGap(y, m, d, at);
  }

  lemma BeforeYear(y: int, m: int, d: int, at: int)
    requires EveryYear(m, d) && 0 <= at < DAY
    ensures At(y - 1, m, d, at) < DaysBeforeYear(y) * DAY
  {
    AtSpan(y - 1, m, d, at);
  }

  lemma AfterYear(y: int, m: int, d: int, at: int)
    requires EveryYear(m, d) && 0 <= at < DAY
    ensures DaysBeforeYear(y + 1) * DAY <= At(y + 1, m, d, at)
  {
    AtSpan(y + 1, m, d, at);
  }

  lemma Outside(first: int, next: int, before: int, after: int, t: int)
    requires first <= t / DAY < next && before < first * DAY && next * DAY <= after
    ensures before < t < after
  {
  }

  lemma InYear(y: int, m: int, d: int, at: int, t: int)
    requires EveryYear(m, d) && 0 <= at < DAY
    requires DaysBeforeYear(y) <= t / DAY < DaysBeforeYear(y + 1)
    ensures At(y, m, d, at) < t + MAX_ITER
  {
    AtSpan(y, m, d, at);
    YearLength(y);
    SameYear(t, At(y, m, d, at), DaysBeforeYear(y), DaysBeforeYear(y + 1));
  }

  /** Two minutes of one year are less than 366 days apart. */
  lemma SameYear(t: int, x: int, first: int, next: int)
    requires first <= t / DAY < next && first * DAY <= x < next * DAY && next <= first + 366
    ensures x < t + MAX_ITER
  {
  }

  lemma InWeek(base: int, w: int) returns (n: int)
    requires 0 <= w <= 6
    ensures base <= n < base + 7 && Weekday(n) == w
  {
    n := base + (w - Weekday(base)) % 7;
  }

  /** Any weekday of any month comes round within 366 days, at any time of day: in the
      first week of the month to come, or in the second week of the present one. */
  lemma WeekdayOccurrence(t: int, m: int, w: int, at: int) returns (r: int)
    requires 1 <= m <= 12 && 0 <= w <= 6 && 0 <= at < DAY
    ensures t <= r < t + MAX_ITER && DateOf(r / DAY).month == m && Weekday(r / DAY) == w && r % DAY == at
  {
    var y := NextOccurrence(t, m, 1, 0);
    if At(y, m, 1, 0) + 7 * DAY <= t + MAX_ITER {
      r := InMonth(y, m, 1, w, at);
    } else {
      var z := y - 1;
      assert At(y, m, 1, 0) <= At(z, m, 1, 0) + MAX_ITER by { AtGap(z, m, 1, 0); assert z + 1 == y; }
      r := InMonth(z, m, 8, w, at);
    }
  }

  lemma InMonth(y: int, m: int, d: int, w: int, at: int) returns (r: int)
    requires 1 <= m <= 12 && (d == 1 || d == 8) && 0 <= w <= 6 && 0 <= at < DAY
    ensures At(y, m, 1, 0) + (d - 1) * DAY <= r < At(y, m, 1, 0) + (d + 6) * DAY
    ensures DateOf(r / DAY).month == m && Weekday(r / DAY) == w && r % DAY == at
  {
    var base := DayNumber(Date(y, m, d));
    var n := InWeek(base, w);
    var e := d + n - base;
    assert DayNumber(Date(y, m, e)) == n;
    AtDate(y, m, e, at);
    r := At(y, m, e, at);
  }

  // ----- completeness

  /** Some listed month has some listed day in every year. */
  ghost predicate HasCommonDate(s: Schedule) {
    exists m, d :: m in s.month && d in s.day && EveryYear(m, d)
  }

  lemma TimeOfDay(h: int, mi: int, t: int)
    requires 0 <= h <= 23 && 0 <= mi <= 59 && t % DAY == 60 * h + mi
    ensures t % 60 == mi && (t % DAY) / 60 == h
  {
    assert t == (t / DAY) * DAY + 60 * h + mi;
    assert t == 60 * (24 * (t / DAY) + h) + mi;
  }

  lemma AlwaysFound(s: Schedule, t: int)
    requires Accepted(s) && (s.weekdayRestricted || HasCommonDate(s))
    ensures FoundWithin(s, t)
  {
    var mi :| mi in s.minute && 0 <= mi <= 59;
    var h :| h in s.hour && 0 <= h <= 23;
    var at := 60 * h + mi;
    var r: int;
    if s.weekdayRestricted {
      var m :| m in s.month && 1 <= m <= 12;
      var w :| w in s.weekday && 0 <= w <= 6;
      r := WeekdayOccurrence(t, m, w, at);
    } else {
      var m, d :| m in s.month && d in s.day && EveryYear(m, d);
      var y := NextOccurrence(t, m, d, at);
      r := At(y, m, d, at);
      AtDate(y, m, d, at);
    }
    TimeOfDay(h, mi, r);
    assert Matches(s, r);
  }

  /** The minute from which the search looks over 366 days without a 29 February. */
  const MARCH_2001 := 730_544 * DAY

  lemma YearsAround2001()
    ensures DayNumber(Date(2001, 3, 1)) == 730_544
    ensures DaysBeforeYear(2001) == 730_485 && DaysBeforeYear(2002) == 730_850 && DaysBeforeYear(2003) == 731_215
    ensures !Leap(2001) && !Leap(2002)
  {
  }

  lemma NoLeapDayAfterMarch2001(t: int)
    requires MARCH_2001 <= t < MARCH_2001 + MAX_ITER
    ensures !Leap(DateOf(t / DAY).year)
  {
    YearsAround2001();
    var n := t / DAY;
    if n < 730_850 { YearUnique(n, 2001); } else { YearUnique(n, 2002); }
  }

  lemma SometimesMissed(s: Schedule)
    requires Accepted(s) && !s.weekdayRestricted && !HasCommonDate(s)
    ensures !FoundWithin(s, MARCH_2001)
  {
    forall t | MARCH_2001 <= t < MARCH_2001 + MAX_ITER ensures !Matches(s, t) {
      NoLeapDayAfterMarch2001(t);
      var date := DateOf(t / DAY);
      assert EveryYear(date.month, date.day);
    }
  }

  /** From every starting time the search finds a run if and only if the weekday field is
      restricted or some listed month has a listed day in every year. */
  lemma CompleteIff(s: Schedule)
    requires Accepted(s)
    ensures (forall from :: FoundWithin(s, FirstMinute(from))) <==> s.weekdayRestricted || HasCommonDate(s)
  {
    if s.weekdayRestricted || HasCommonDate(s) {
      forall from ensures FoundWithin(s, FirstMinute(from)) { AlwaysFound(s, FirstMinute(from)); }
    } else {
      SometimesMissed(s);
      assert FirstMinute(MARCH_2001 * NANOS_PER_MINUTE - 1) == MARCH_2001;
    }
  }
}
