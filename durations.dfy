/** The duration statics of matter-of-time and `from`, `tomorrow` and
    `yesterday`. A duration is a time value read as a span of milliseconds;
    every unit is a fixed multiple of the one below it, so a "month" is 30
    days and a "year" 365 days. */
module Durations {
  import opened EcmaDate

  function Milliseconds(value: int): int { value }
  function Seconds(value: int): int { value * 1000 }
  function Minutes(value: int): int { value * 60000 }
  function Hours(value: int): int { value * 3600000 }
  function Days(value: int): int { value * 86400000 }
  function Weeks(value: int): int { Days(7 * value) }
  function Fortnites(value: int): int { Weeks(2 * value) }
  function Months(value: int): int { Days(30 * value) }
  function Trimester(value: int): int { Months(4 * value) }
  function Semester(value: int): int { Months(6 * value) }
  function Years(value: int): int { Days(365 * value) }
  function Decades(value: int): int { Years(10 * value) }
  function Centuries(value: int): int { Years(100 * value) }
  function Millenia(value: int): int { Years(1000 * value) }

  /** The time value of `duration.from(other)`: the two are added. Its
      calendar meaning is stated by `FromDays`, `TomorrowIsNextDate` and
      `WeekOnSameWeekday`. */
  function From(duration: int, other: int): (r: int)
    ensures r - other == duration
  {
    other + duration
  }

  /** tomorrow(): `days(1).from(this)`. */
  function Tomorrow(t: int): int { From(Days(1), t) }

  /** yesterday(): `days(-1).from(this)`. */
  function Yesterday(t: int): int { From(Days(-1), t) }

  /** Every unit is the stated multiple of the next smaller one. */
  lemma UnitRatios(v: int)
    ensures Seconds(v) == Milliseconds(1000 * v)
    ensures Minutes(v) == Seconds(60 * v)
    ensures Hours(v) == Minutes(60 * v)
    ensures Days(v) == Hours(24 * v)
    ensures Weeks(v) == Days(7 * v) && Fortnites(v) == Days(14 * v)
    ensures Months(v) == Days(30 * v) && Trimester(v) == Days(120 * v) && Semester(v) == Days(180 * v)
    ensures Years(v) == Days(365 * v) && Decades(v) == Days(3650 * v)
    ensures Centuries(v) == Days(36500 * v) && Millenia(v) == Days(365000 * v)
  {
  }

  /** A duration of whole days moves a time value by that many calendar days,
      keeps its time of day and turns its weekday on by the same count. */
  lemma FromDays(k: int, t: int)
    ensures Day(From(Days(k), t)) == Day(t) + k
    ensures TimeWithinDay(From(Days(k), t)) == TimeWithinDay(t)
    ensures WeekDay(From(Days(k), t)) == (WeekDay(t) + k) % 7
  {
    assert From(Days(k), t) == t + k * MsPerDay;
    ShiftDays(t, k);
  }

  /** tomorrow() is the next calendar date, `setDate(getDate() + 1)`, at the
      same time of day, and yesterday() the previous one. */
  lemma TomorrowIsNextDate(t: int)
    ensures Tomorrow(t) == SetDate(t, DateFromTime(t) + 1)
    ensures Yesterday(t) == SetDate(t, DateFromTime(t) - 1)
  {
    SetDateShift(t, 1);
    SetDateShift(t, -1);
  }

  /** yesterday() undoes tomorrow(), and the other way round. */
  lemma YesterdayOfTomorrow(t: int)
    ensures Yesterday(Tomorrow(t)) == t && Tomorrow(Yesterday(t)) == t
  {
  }

  /** A week on is seven calendar days on, on the same weekday. */
  lemma WeekOnSameWeekday(t: int, n: int)
    ensures Day(From(Weeks(n), t)) == Day(t) + 7 * n
    ensures WeekDay(From(Weeks(n), t)) == WeekDay(t)
    ensures TimeWithinDay(From(Weeks(n), t)) == TimeWithinDay(t)
  {
    FromDays(7 * n, t);
  }

  /** October 15th 2018, the date the library's tests start from, moved by
      k whole days within October. */
  lemma DaysFromOctober15(t: int, k: int, d: int)
    requires IsDate(t, 2018, 9, 15) && 1 <= d <= 31 && d == 15 + k
    ensures IsDate(From(Days(k), t), 2018, 9, d)
  {
    DayOfFields(t);
    MakeDayInYear(2018, 9, 15);
    MakeDayInYear(2018, 9, d);
    FromDays(k, t);
    DecodeDay(2018, 9, d, Day(From(Days(k), t)));
  }

  lemma TomorrowFromOctober15(t: int)
    requires IsDate(t, 2018, 9, 15)
    ensures IsDate(Tomorrow(t), 2018, 9, 16)
  {
    DaysFromOctober15(t, 1, 16);
  }

  lemma YesterdayFromOctober15(t: int)
    requires IsDate(t, 2018, 9, 15)
    ensures IsDate(Yesterday(t), 2018, 9, 14)
  {
    DaysFromOctober15(t, -1, 14);
  }

  lemma NextWeekFromOctober15(t: int)
    requires IsDate(t, 2018, 9, 15)
    ensures IsDate(From(Weeks(1), t), 2018, 9, 22)
  {
    DaysFromOctober15(t, 7, 22);
  }

  lemma LastWeekFromOctober15(t: int)
    requires IsDate(t, 2018, 9, 15)
    ensures IsDate(From(Weeks(-1), t), 2018, 9, 8)
  {
    DaysFromOctober15(t, -7, 8);
  }
}
