/** The weekday helpers behind `current`, `next`, `last` and `upcoming`:
    each moves the date of a copy by a fixed number of days with
    `setDate`. Weekdays are numbered from 0 (Sunday) to 6 (Saturday), so a
    week runs from Sunday to Saturday. */
module Weekdays {
  import opened EcmaDate

  /** The time value k whole days after t. */
  function DaysOn(t: int, k: int): int {
    t + k * MsPerDay
  }

  /** calcWeekdayDate: weekday `day` of the week of t. */
  function CurrentWeekday(t: int, day: int): int {
    SetDate(t, DateFromTime(t) + day - WeekDay(t))
  }

  /** calcNextWeekdayDate: weekday `day` of the following week. */
  function NextWeekday(t: int, day: int): int {
    SetDate(t, DateFromTime(t) + 7 + day - WeekDay(t))
  }

  /** calcLastWeekdayDate: weekday `day` of the previous week. */
  function LastWeekday(t: int, day: int): int {
    SetDate(t, DateFromTime(t) - 7 + day - WeekDay(t))
  }

  /** calcUpcomingWeekdayDate: the next week's `day` when this week's is
      today or already past, else this week's. */
  function UpcomingWeekday(t: int, day: int): int {
    if WeekDay(t) >= day then NextWeekday(t, day) else CurrentWeekday(t, day)
  }

  /** Moving by k whole days keeps the time of day and turns the weekday
      on by k. */
  lemma DaysOnFields(t: int, k: int)
    ensures Day(DaysOn(t, k)) == Day(t) + k
    ensures TimeWithinDay(DaysOn(t, k)) == TimeWithinDay(t)
    ensures WeekDay(DaysOn(t, k)) == (WeekDay(t) + k) % 7
  {
    ShiftDays(t, k);
  }

  /** `setDate(date)` with a date k days on from t's moves t by k days. */
  lemma SetDateBy(t: int, date: int, k: int)
    requires date == DateFromTime(t) + k
    ensures SetDate(t, date) == DaysOn(t, k)
    ensures Day(SetDate(t, date)) == Day(t) + k
    ensures TimeWithinDay(SetDate(t, date)) == TimeWithinDay(t)
    ensures WeekDay(SetDate(t, date)) == (WeekDay(t) + k) % 7
  {
    SetDateShift(t, k);
    assert SetDate(t, date) == DaysOn(t, k);
    DaysOnFields(t, k);
  }

  /** A weekday index moved by a whole week or not at all. */
  lemma WeekIndex(x: int, day: int)
    requires 0 <= day < 7 && (x == day || x == day + 7 || x == day - 7)
    ensures x % 7 == day
  {
  }

  /** No weekday strictly between w and the next `day` is `day`. */
  lemma WeekIndexMiss(w: int, j: int, day: int)
    requires 0 <= w < 7 && 0 <= day < 7 && 1 <= j
    requires if w >= day then j < day - w + 7 else j < day - w
    ensures (w + j) % 7 != day
  {
  }

  /** The three helpers move t by `day - dow`, seven days more and seven
      days less, where dow is t's weekday; the result keeps t's time of
      day and, for a weekday index 0..6, falls on weekday `day`. */
  lemma CurrentWeekdayOffset(t: int, day: int, k: int)
    requires 0 <= day < 7 && k == day - WeekDay(t)
    ensures CurrentWeekday(t, day) == DaysOn(t, k)
    ensures WeekDay(CurrentWeekday(t, day)) == day
    ensures TimeWithinDay(CurrentWeekday(t, day)) == TimeWithinDay(t)
  {
    var date := DateFromTime(t) + day - WeekDay(t);
    assert CurrentWeekday(t, day) == SetDate(t, date);
    SetDateBy(t, date, k);
    WeekIndex(WeekDay(t) + k, day);
  }

  lemma NextWeekdayOffset(t: int, day: int, k: int)
    requires 0 <= day < 7 && k == day - WeekDay(t) + 7
    ensures NextWeekday(t, day) == DaysOn(t, k)
    ensures WeekDay(NextWeekday(t, day)) == day
    ensures TimeWithinDay(NextWeekday(t, day)) == TimeWithinDay(t)
  {
    var date := DateFromTime(t) + 7 + day - WeekDay(t);
    assert NextWeekday(t, day) == SetDate(t, date);
    SetDateBy(t, date, k);
    WeekIndex(WeekDay(t) + k, day);
  }

  lemma LastWeekdayOffset(t: int, day: int, k: int)
    requires 0 <= day < 7 && k == day - WeekDay(t) - 7
    ensures LastWeekday(t, day) == DaysOn(t, k)
    ensures WeekDay(LastWeekday(t, day)) == day
    ensures TimeWithinDay(LastWeekday(t, day)) == TimeWithinDay(t)
  {
    var date := DateFromTime(t) - 7 + day - WeekDay(t);
    assert LastWeekday(t, day) == SetDate(t, date);
    SetDateBy(t, date, k);
    WeekIndex(WeekDay(t) + k, day);
  }

  /** This week's `day` lies in the Sunday-to-Saturday week of t. */
  lemma CurrentWeekdaySameWeek(t: int, day: int)
    requires 0 <= day < 7
    ensures Day(t) - WeekDay(t) <= Day(CurrentWeekday(t, day)) <= Day(t) - WeekDay(t) + 6
    ensures Day(CurrentWeekday(t, day)) == Day(t) - WeekDay(t) + day
  {
    var k := day - WeekDay(t);
    CurrentWeekdayOffset(t, day, k);
    DaysOnFields(t, k);
  }

  /** `upcoming` is the first day strictly after t that falls on weekday
      `day`: between one and seven days on, and seven exactly when t itself
      falls on `day`. */
  lemma UpcomingIsNextOccurrence(t: int, day: int)
    requires 0 <= day < 7
    ensures var k := Day(UpcomingWeekday(t, day)) - Day(t);
      && 1 <= k <= 7
      && UpcomingWeekday(t, day) == DaysOn(t, k)
      && WeekDay(UpcomingWeekday(t, day)) == day
      && (k == 7 <==> WeekDay(t) == day)
      && (forall j :: 1 <= j < k ==> WeekDay(DaysOn(t, j)) != day)
  {
    var w := WeekDay(t);
    var k := if w >= day then day - w + 7 else day - w;
    if w >= day {
      NextWeekdayOffset(t, day, k);
    } else {
      CurrentWeekdayOffset(t, day, k);
    }
    DaysOnFields(t, k);
    assert UpcomingWeekday(t, day) == DaysOn(t, k);
    forall j | 1 <= j < k
      ensures WeekDay(DaysOn(t, j)) != day
    {
      DaysOnFields(t, j);
      WeekIndexMiss(w, j, day);
    }
  }

  // ---------------------------------------------------------------------
  // The library's test cases: from Friday October 12th 2018 and Tuesday
  // October 30th 2018, at any time of day

  /** Landing k days after t, on a day that MakeDay names. */
  lemma LandsOn(t: int, k: int, y: int, m: int, d: int)
    requires 0 <= m < 12 && 1 <= d <= DaysInMonth(y, m)
    requires Day(t) + k == MakeDay(y, m, d)
    ensures IsDate(DaysOn(t, k), y, m, d)
  {
    DaysOnFields(t, k);
    DecodeDay(y, m, d, Day(DaysOn(t, k)));
  }

  lemma FridayOctober12(t: int)
    requires IsDate(t, 2018, 9, 12)
    ensures Day(t) == MakeDay(2018, 9, 12) && WeekDay(t) == 5
  {
    DayOfFields(t);
    October12();
    assert Day(t) == 17816;
    assert WeekDayOfDay(17816) == 5;
  }

  lemma October12()
    ensures MakeDay(2018, 9, 12) == 17816
  {
    MakeDayInYear(2018, 9, 12);
    assert !InLeapYear(2018) && DayFromYear(2018) == 17532 && MonthStart(9, false) == 273;
  }

  lemma CurrentMondayFromOctober12(t: int)
    requires IsDate(t, 2018, 9, 12)
    ensures IsDate(CurrentWeekday(t, 1), 2018, 9, 8)
  {
    FridayOctober12(t);
    CurrentWeekdayOffset(t, 1, -4);
    LandsOn(t, -4, 2018, 9, 8);
  }

  lemma LastFridayFromOctober12(t: int)
    requires IsDate(t, 2018, 9, 12)
    ensures IsDate(LastWeekday(t, 5), 2018, 9, 5)
  {
    FridayOctober12(t);
    LastWeekdayOffset(t, 5, -7);
    LandsOn(t, -7, 2018, 9, 5);
  }

  lemma NextWednesdayFromOctober12(t: int)
    requires IsDate(t, 2018, 9, 12)
    ensures IsDate(NextWeekday(t, 3), 2018, 9, 17)
  {
    FridayOctober12(t);
    NextWeekdayOffset(t, 3, 5);
    LandsOn(t, 5, 2018, 9, 17);
  }

  lemma UpcomingSaturdayFromOctober12(t: int)
    requires IsDate(t, 2018, 9, 12)
    ensures IsDate(UpcomingWeekday(t, 6), 2018, 9, 13)
  {
    FridayOctober12(t);
    CurrentWeekdayOffset(t, 6, 1);
    assert UpcomingWeekday(t, 6) == CurrentWeekday(t, 6);
    LandsOn(t, 1, 2018, 9, 13);
  }

  lemma UpcomingTuesdayFromOctober12(t: int)
    requires IsDate(t, 2018, 9, 12)
    ensures IsDate(UpcomingWeekday(t, 2), 2018, 9, 16)
  {
    FridayOctober12(t);
    NextWeekdayOffset(t, 2, 4);
    assert UpcomingWeekday(t, 2) == NextWeekday(t, 2);
    LandsOn(t, 4, 2018, 9, 16);
  }

  lemma UpcomingFridayFromOctober30(t: int)
    requires IsDate(t, 2018, 9, 30)
    ensures IsDate(UpcomingWeekday(t, 5), 2018, 10, 2)
  {
    DayOfFields(t);
    assert DayFromYear(2018) == 17532 && MonthStart(9, false) == 273;
    assert MakeDay(2018, 9, 30) == 17834;
    assert WeekDay(t) == 2;
    CurrentWeekdayOffset(t, 5, 3);
    assert UpcomingWeekday(t, 5) == CurrentWeekday(t, 5);
    assert MonthStart(10, false) == 304 && MakeDay(2018, 10, 2) == 17837;
    LandsOn(t, 3, 2018, 10, 2);
  }
}
