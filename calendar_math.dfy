/** Calendar math of matter-of-time: the library's month-length table, the
    last-of-month test, and calendar-aware month and year addition, stated
    on time values. The class methods that perform these steps with the
    Date setters are in module Mot and are proved to reach the values
    defined here. */
module CalendarMath {
  import opened EcmaDate
  import JsNumber

  /** Zero-based indices of the months with 31 days. */
  const LongMonths: seq<int> := [0, 2, 4, 6, 7, 9, 11]

  /** The library's leap rule (every fourth year) and the Gregorian rule of
      the Date primitive agree on year y: it is not a century year, or it is
      a multiple of 400. */
  predicate LeapRulesAgree(y: int) {
    y % 100 != 0 || y % 400 == 0
  }

  /** getLastDateOfMonth: the last date of zero-based month `targetMonth`,
      with the leap rule "divisible by four". Any index other than 0..11
      falls through to 30. */
  function LastDateOfMonth(targetMonth: int, targetYear: int): (r: int)
    ensures 28 <= r <= 31
    ensures r == 29 <==> targetMonth == 1 && targetYear % 4 == 0
    ensures !(0 <= targetMonth < 12) ==> r == 30
  {
    if targetMonth == 1 then
      (if JsNumber.Remainder(targetYear, 4) == 0 then 29 else 28)
    else if targetMonth in LongMonths then 31
    else 30
  }

  /** Where the two leap rules agree, the table gives the calendar's month
      length. */
  lemma LastDateIsMonthLength(targetMonth: int, targetYear: int)
    requires 0 <= targetMonth < 12 && LeapRulesAgree(targetYear)
    ensures LastDateOfMonth(targetMonth, targetYear) == DaysInMonth(targetYear, targetMonth)
  {
  }

  /** The static isLastOfMonth(year, month, date). */
  function IsLastOfMonth(year: int, month: int, date: int): (r: bool)
    ensures r <==> date == LastDateOfMonth(month, year)
  {
    if month == 1 then
      (if JsNumber.Remainder(year, 4) == 0 then date == 29 else date == 28)
    else if month in LongMonths then date == 31
    else date == 30
  }

  /** The instance isLastOfMonth(), on a time value. */
  predicate IsLastOfMonthAt(t: int) {
    IsLastOfMonth(YearFromTime(t), MonthFromTime(t), DateFromTime(t))
  }

  /** Where the two leap rules agree, the library's last-of-month test is the
      calendar's: the date is the length of its month. */
  lemma IsLastOfMonthAtCalendar(t: int)
    requires LeapRulesAgree(YearFromTime(t))
    ensures IsLastOfMonthAt(t) <==> DateFromTime(t) == DaysInMonth(YearFromTime(t), MonthFromTime(t))
  {
    LastDateIsMonthLength(MonthFromTime(t), YearFromTime(t));
  }

  // ---------------------------------------------------------------------
  // addYears

  /** The time value addYears(count, vanilla) returns for a receiver holding
      time value t. Unless vanilla, the last day of February (by the
      library's table) goes to the library's last day of February of the
      target year; otherwise only the year field changes, with the
      primitive's rollover. */
  function AddYearsValue(t: int, count: int, vanilla: bool): int {
    var y, m, d := YearFromTime(t), MonthFromTime(t), DateFromTime(t);
    if !vanilla && m == 1 && IsLastOfMonth(y, m, d) then
      MakeDate(MakeDay(y + count, 1, LastDateOfMonth(1, y + count)), TimeWithinDay(t))
    else
      MakeDate(MakeDay(y + count, m, d), TimeWithinDay(t))
  }

  /** in(year) */
  function InValue(t: int, year: int): int {
    AddYearsValue(t, year - YearFromTime(t), false)
  }

  /** The end-of-February policy: the last day of February goes to the last
      day of February of the target year `ty`, at the same time of day. */
  lemma AddYearsFebruaryEnd(t: int, count: int, ty: int)
    requires ty == YearFromTime(t) + count
    requires MonthFromTime(t) == 1 && IsLastOfMonthAt(t)
    requires LeapRulesAgree(ty)
    ensures IsDate(AddYearsValue(t, count, false), ty, 1, DaysInMonth(ty, 1))
    ensures IsLastOfMonthAt(AddYearsValue(t, count, false))
    ensures TimeWithinDay(AddYearsValue(t, count, false)) == TimeWithinDay(t)
  {
    var last := DaysInMonth(ty, 1);
    LastDateIsMonthLength(1, ty);
    var day := MakeDay(ty, 1, last);
    assert AddYearsValue(t, count, false) == MakeDate(day, TimeWithinDay(t));
    DecodeMakeDay(ty, 1, last);
    DecodeDayTime(day, TimeWithinDay(t));
    assert IsLastOfMonth(ty, 1, last);
  }

  /** Off the end of February, or in vanilla mode, the year field moves to
      `ty` and the month and date stay when the date exists in the target
      year. */
  lemma AddYearsKeepsDate(t: int, count: int, vanilla: bool, ty: int)
    requires ty == YearFromTime(t) + count
    requires vanilla || MonthFromTime(t) != 1 || !IsLastOfMonthAt(t)
    requires DateFromTime(t) <= DaysInMonth(ty, MonthFromTime(t))
    ensures IsDate(AddYearsValue(t, count, vanilla), ty, MonthFromTime(t), DateFromTime(t))
    ensures TimeWithinDay(AddYearsValue(t, count, vanilla)) == TimeWithinDay(t)
  {
    var m, d := MonthFromTime(t), DateFromTime(t);
    var day := MakeDay(ty, m, d);
    assert AddYearsValue(t, count, vanilla) == MakeDate(day, TimeWithinDay(t));
    DecodeMakeDay(ty, m, d);
    DecodeDayTime(day, TimeWithinDay(t));
  }

  /** In vanilla mode February 29th rolls over to March 1st in a target year
      without one. */
  lemma AddYearsVanillaLeapDay(t: int, count: int, ty: int)
    requires ty == YearFromTime(t) + count
    requires MonthFromTime(t) == 1 && DateFromTime(t) == 29
    requires !InLeapYear(ty)
    ensures IsDate(AddYearsValue(t, count, true), ty, 2, 1)
  {
    var day := MakeDay(ty, 1, 29);
    var r := AddYearsValue(t, count, true);
    assert r == MakeDate(day, TimeWithinDay(t));
    MakeDayInYear(ty, 1, 29);
    MakeDayInYear(ty, 2, 1);
    assert day == MakeDay(ty, 2, 1);
    DecodeMakeDay(ty, 2, 1);
    DecodeDayTime(day, TimeWithinDay(t));
    assert Day(r) == day;
  }

  /** Where both years follow the same leap rule in the library and in the
      primitive, going `count` years on and `back == -count` years back
      returns to the same instant, except from February 28th of a leap year
      (see the next lemma). */
  lemma AddYearsRoundTrip(t: int, count: int, back: int)
    requires back == -count
    requires LeapRulesAgree(YearFromTime(t)) && LeapRulesAgree(YearFromTime(t) + count)
    requires !(MonthFromTime(t) == 1 && DateFromTime(t) == 28 && InLeapYear(YearFromTime(t)))
    ensures AddYearsValue(AddYearsValue(t, count, false), back, false) == t
  {
    var y, m, d := YearFromTime(t), MonthFromTime(t), DateFromTime(t);
    var ty := y + count;
    var t1 := AddYearsValue(t, count, false);
    if m == 1 && IsLastOfMonth(y, m, d) {
      AddYearsFebruaryEnd(t, count, ty);
      assert d == DaysInMonth(y, 1);
      AddYearsFebruaryEnd(t1, back, y);
    } else {
      AddYearsKeepsDate(t, count, false, ty);
      assert !(m == 1 && IsLastOfMonth(ty, m, d));
      AddYearsKeepsDate(t1, back, false, y);
    }
    var t2 := AddYearsValue(t1, back, false);
    assert IsDate(t2, y, m, d);
    DayOfFields(t);
    DayOfFields(t2);
    SameDayAndTime(t2, t);
  }

  /** The policy is not symmetric: from February 28th of a leap year, a year
      on is February 28th of a common year, which is a last of February, so
      the way back ends on February 29th. */
  lemma AddYearsFromLeapFebruary28(t: int, count: int, back: int)
    requires back == -count
    requires MonthFromTime(t) == 1 && DateFromTime(t) == 28
    requires InLeapYear(YearFromTime(t)) && LeapRulesAgree(YearFromTime(t))
    requires (YearFromTime(t) + count) % 4 != 0
    ensures IsDate(AddYearsValue(AddYearsValue(t, count, false), back, false), YearFromTime(t), 1, 29)
  {
    var y := YearFromTime(t);
    var ty := y + count;
    var t1 := AddYearsValue(t, count, false);
    AddYearsKeepsDate(t, count, false, ty);
    assert IsLastOfMonthAt(t1);
    AddYearsFebruaryEnd(t1, back, y);
  }

  /** The example: February 28th, 2016, a year on and back, is February 29th,
      2016. */
  lemma AddYearsFebruary28Of2016(t: int)
    requires IsDate(t, 2016, 1, 28)
    ensures IsDate(AddYearsValue(AddYearsValue(t, 1, false), -1, false), 2016, 1, 29)
  {
    AddYearsFromLeapFebruary28(t, 1, -1);
  }

  /** in(year) moves to the given year and keeps the month, wherever the two
      leap rules agree on that year. */
  lemma InSetsYear(t: int, year: int)
    requires LeapRulesAgree(year)
    ensures YearFromTime(InValue(t, year)) == year
    ensures MonthFromTime(InValue(t, year)) == MonthFromTime(t)
    ensures TimeWithinDay(InValue(t, year)) == TimeWithinDay(t)
  {
    var y, m, d := YearFromTime(t), MonthFromTime(t), DateFromTime(t);
    var c := year - y;
    assert InValue(t, year) == AddYearsValue(t, c, false);
    if m == 1 && IsLastOfMonth(y, m, d) {
      AddYearsFebruaryEnd(t, c, year);
    } else {
      AddYearsKeepsDate(t, c, false, year);
    }
  }

  // ---------------------------------------------------------------------
  // addMonths

  /** The time value addMonths(repeat, vanilla) returns for a receiver
      holding time value t. Unless vanilla, a last-of-month date goes to the
      library's last date of the target month, where the target month is the
      truncating remainder `(m + repeat) % 12` and the year is moved by
      `Math.floor((m + repeat) / 12)`; otherwise the month field is moved by
      `repeat`, with the primitive's rollover. */
  function AddMonthsValue(t: int, repeat: int, vanilla: bool): int {
    var y, m, d := YearFromTime(t), MonthFromTime(t), DateFromTime(t);
    if !vanilla && IsLastOfMonth(y, m, d) then
      var relativeMonth := m + repeat;
      var targetMonth := JsNumber.Remainder(relativeMonth, 12);
      var targetYear := y + JsNumber.FloorDiv(relativeMonth, 12);
      MakeDate(MakeDay(targetYear, targetMonth, LastDateOfMonth(targetMonth, targetYear)), TimeWithinDay(t))
    else
      MakeDate(MakeDay(y, m + repeat, d), TimeWithinDay(t))
  }

  /** The year and the zero-based month that moving the month field of t by
      `repeat` lands on, with Euclidean carry as the primitive does it. */
  function TargetYear(t: int, repeat: int): int {
    YearFromTime(t) + (MonthFromTime(t) + repeat) / 12
  }

  function TargetMonth(t: int, repeat: int): (m: int)
    ensures 0 <= m < 12
  {
    (MonthFromTime(t) + repeat) % 12
  }

  /** The end-of-month policy: from a last-of-month date, while the target
      month index stays non-negative, the result is the last day of the
      target month, at the same time of day. */
  lemma AddMonthsEndOfMonth(t: int, repeat: int)
    requires IsLastOfMonthAt(t)
    requires MonthFromTime(t) + repeat >= 0
    requires LeapRulesAgree(TargetYear(t, repeat))
    ensures IsDate(AddMonthsValue(t, repeat, false), TargetYear(t, repeat), TargetMonth(t, repeat),
      DaysInMonth(TargetYear(t, repeat), TargetMonth(t, repeat)))
    ensures IsLastOfMonthAt(AddMonthsValue(t, repeat, false))
    ensures TimeWithinDay(AddMonthsValue(t, repeat, false)) == TimeWithinDay(t)
  {
    var ty, tm := TargetYear(t, repeat), TargetMonth(t, repeat);
    var last := DaysInMonth(ty, tm);
    LastDateIsMonthLength(tm, ty);
    var r := AddMonthsValue(t, repeat, false);
    var day := MakeDay(ty, tm, last);
    AddMonthsOnLast(t, repeat);
    DecodeMakeDay(ty, tm, last);
    DecodeDayTime(day, TimeWithinDay(t));
    assert Day(r) == day;
    assert IsDate(r, ty, tm, last);
    assert IsLastOfMonth(ty, tm, last);
  }

  /** From a last-of-month date with a non-negative target month index, the
      table is asked about the target month and year themselves. */
  lemma AddMonthsOnLast(t: int, repeat: int)
    requires IsLastOfMonthAt(t)
    requires MonthFromTime(t) + repeat >= 0
    ensures var ty, tm := TargetYear(t, repeat), TargetMonth(t, repeat);
      AddMonthsValue(t, repeat, false) == MakeDate(MakeDay(ty, tm, LastDateOfMonth(tm, ty)), TimeWithinDay(t))
  {
    var rel := MonthFromTime(t) + repeat;
    assert JsNumber.Remainder(rel, 12) == rel % 12;
    assert JsNumber.FloorDiv(rel, 12) == rel / 12;
  }

  /** With a negative target month index that is not a multiple of twelve,
      the truncating remainder is negative: the table answers 30 for it and
      the primitive carries the negative month one more year back. The
      result is day 30 counted from the first of the right month, one year
      early; for a February target that runs into March. */
  lemma AddMonthsNegativeTarget(t: int, repeat: int)
    requires IsLastOfMonthAt(t)
    requires MonthFromTime(t) + repeat < 0 && (MonthFromTime(t) + repeat) % 12 != 0
    ensures var rel := MonthFromTime(t) + repeat;
      AddMonthsValue(t, repeat, false)
        == MakeDate(MakeDay(YearFromTime(t) + rel / 12 - 1, rel % 12, 30), TimeWithinDay(t))
  {
    var rel := MonthFromTime(t) + repeat;
    var ty := YearFromTime(t) + rel / 12;
    var tm := JsNumber.Remainder(rel, 12);
    JsNumber.RemainderTwelve(rel);
    assert tm == rel % 12 - 12;
    MakeDayCarry(ty - 1, tm, 30, 1);
  }

  /** The example of the negative target: January 31st of 2018 minus one
      month is December 30th of 2016. */
  lemma AddMonthsJanuary31MinusOne()
    ensures AddMonthsValue(MakeDate(MakeDay(2018, 0, 31), 0), -1, false) == MakeDate(MakeDay(2016, 11, 30), 0)
  {
    var day := MakeDay(2018, 0, 31);
    var t := MakeDate(day, 0);
    DecodeMakeDay(2018, 0, 31);
    DecodeDayTime(day, 0);
    assert IsDate(t, 2018, 0, 31);
    assert IsLastOfMonth(2018, 0, 31) by {
      assert 0 in LongMonths;
    }
    AddMonthsNegativeTarget(t, -1);
    assert -1 / 12 == -1 && -1 % 12 == 11;
  }

  /** A February target: January 31st of 2018 minus eleven months is day 30
      counted from February 1st of 2016, which is March 1st of 2016. */
  lemma AddMonthsJanuary31MinusEleven()
    ensures AddMonthsValue(MakeDate(MakeDay(2018, 0, 31), 0), -11, false) == MakeDate(MakeDay(2016, 2, 1), 0)
  {
    var day := MakeDay(2018, 0, 31);
    var t := MakeDate(day, 0);
    DecodeMakeDay(2018, 0, 31);
    DecodeDayTime(day, 0);
    assert IsDate(t, 2018, 0, 31);
    assert IsLastOfMonth(2018, 0, 31) by {
      assert 0 in LongMonths;
    }
    AddMonthsNegativeTarget(t, -11);
    assert -11 / 12 == -1 && -11 % 12 == 1;
    February30Of2016();
  }

  lemma February30Of2016()
    ensures MakeDay(2016, 1, 30) == MakeDay(2016, 2, 1)
  {
    MakeDayInYear(2016, 1, 30);
    MakeDayInYear(2016, 2, 1);
    assert InLeapYear(2016) && MonthStart(1, true) == 31 && MonthStart(2, true) == 60;
  }

  /** Vanilla mode, or a date that is not last of its month: the result is
      `d - 1` days after the first of the target month, so a date the target
      month lacks runs on into the month after it. */
  lemma AddMonthsNative(t: int, repeat: int, vanilla: bool)
    requires vanilla || !IsLastOfMonthAt(t)
    ensures Day(AddMonthsValue(t, repeat, vanilla)) == MakeDay(TargetYear(t, repeat), TargetMonth(t, repeat), DateFromTime(t))
    ensures Day(AddMonthsValue(t, repeat, vanilla)) == MakeDay(TargetYear(t, repeat), TargetMonth(t, repeat), 1) + DateFromTime(t) - 1
    ensures TimeWithinDay(AddMonthsValue(t, repeat, vanilla)) == TimeWithinDay(t)
  {
    var y, m, d := YearFromTime(t), MonthFromTime(t), DateFromTime(t);
    var rel := m + repeat;
    var day := MakeDay(y, rel, d);
    assert AddMonthsValue(t, repeat, vanilla) == MakeDate(day, TimeWithinDay(t));
    MakeDayNormal(y, rel, d, TargetYear(t, repeat), TargetMonth(t, repeat));
    DecodeDayTime(day, TimeWithinDay(t));
  }

  /** ... and when the target month has the date, the result is that date
      of the target month. */
  lemma AddMonthsKeepsDate(t: int, repeat: int, vanilla: bool)
    requires vanilla || !IsLastOfMonthAt(t)
    requires DateFromTime(t) <= DaysInMonth(TargetYear(t, repeat), TargetMonth(t, repeat))
    ensures IsDate(AddMonthsValue(t, repeat, vanilla), TargetYear(t, repeat), TargetMonth(t, repeat), DateFromTime(t))
  {
    var ty, tm, d := TargetYear(t, repeat), TargetMonth(t, repeat), DateFromTime(t);
    AddMonthsNative(t, repeat, vanilla);
    DecodeMakeDay(ty, tm, d);
  }

  /** Month arithmetic behind the round trip: from month m, forward
      `repeat` months to month tm, then back `repeat` months from tm, lands
      on month m again, `q` years back. */
  lemma MonthCarryBack(m: int, repeat: int, q: int, tm: int)
    requires 0 <= m < 12
    requires q == (m + repeat) / 12 && tm == (m + repeat) % 12
    ensures (tm - repeat) / 12 == -q && (tm - repeat) % 12 == m
  {
    assert tm - repeat == m + 12 * (-q);
  }

  /** Off month ends, addMonths moves the month field of a date (y, m, d)
      to index `rel`, leaving the time of day. */
  lemma AddMonthsFromDate(t: int, repeat: int, y: int, m: int, d: int, rel: int)
    requires IsDate(t, y, m, d) && !IsLastOfMonth(y, m, d)
    requires rel == m + repeat
    ensures Day(AddMonthsValue(t, repeat, false)) == MakeDay(y, rel, d)
    ensures TimeWithinDay(AddMonthsValue(t, repeat, false)) == TimeWithinDay(t)
  {
    var day := MakeDay(y, rel, d);
    assert AddMonthsValue(t, repeat, false) == MakeDate(day, TimeWithinDay(t));
    DecodeDayTime(day, TimeWithinDay(t));
  }

  /** Away from month ends, `repeat` months forward and `back == -repeat`
      months back is the identity. */
  lemma AddMonthsRoundTrip(t: int, repeat: int, back: int)
    requires back == -repeat
    requires !IsLastOfMonthAt(t)
    requires DateFromTime(t) <= DaysInMonth(TargetYear(t, repeat), TargetMonth(t, repeat))
    requires !IsLastOfMonth(TargetYear(t, repeat), TargetMonth(t, repeat), DateFromTime(t))
    ensures AddMonthsValue(AddMonthsValue(t, repeat, false), back, false) == t
  {
    var y, m, d := YearFromTime(t), MonthFromTime(t), DateFromTime(t);
    var ty, tm := TargetYear(t, repeat), TargetMonth(t, repeat);
    var t1 := AddMonthsValue(t, repeat, false);
    AddMonthsNative(t, repeat, false);
    AddMonthsKeepsDate(t, repeat, false);
    var rel := tm + back;
    AddMonthsFromDate(t1, back, ty, tm, d, rel);
    var q := (m + repeat) / 12;
    assert ty == y + q;
    MonthCarryBack(m, repeat, q, tm);
    MakeDayNormal(ty, rel, d, y, m);
    DayOfFields(t);
    SameDayAndTime(AddMonthsValue(t1, back, false), t);
  }

  // ---------------------------------------------------------------------
  // The month and year steps of the library's own test suite, at any time
  // of day

  lemma NextMonthFromOctober15(t: int)
    requires IsDate(t, 2018, 9, 15)
    ensures IsDate(AddMonthsValue(t, 1, false), 2018, 10, 15)
  {
    assert TargetYear(t, 1) == 2018 && TargetMonth(t, 1) == 10;
    assert !IsLastOfMonthAt(t);
    AddMonthsKeepsDate(t, 1, false);
  }

  lemma NextMonthFromOctober31(t: int)
    requires IsDate(t, 2018, 9, 31)
    ensures IsDate(AddMonthsValue(t, 1, false), 2018, 10, 30)
  {
    AddMonthsEndOfMonth(t, 1);
  }

  lemma LastMonthFromNovember30(t: int)
    requires IsDate(t, 2018, 10, 30)
    ensures IsDate(AddMonthsValue(t, -1, false), 2018, 9, 31)
  {
    AddMonthsEndOfMonth(t, -1);
  }

  lemma NextYearFromFebruary29(t: int)
    requires IsDate(t, 2016, 1, 29)
    ensures IsDate(AddYearsValue(t, 1, false), 2017, 1, 28)
  {
    AddYearsFebruaryEnd(t, 1, 2017);
  }

  lemma LastYearFromFebruary28(t: int)
    requires IsDate(t, 2017, 1, 28)
    ensures IsDate(AddYearsValue(t, -1, false), 2016, 1, 29)
  {
    AddYearsFebruaryEnd(t, -1, 2016);
  }

  lemma VanillaNextMonthFromFebruary28(t: int)
    requires IsDate(t, 2018, 1, 28)
    ensures IsDate(AddMonthsValue(t, 1, true), 2018, 2, 28)
  {
    AddMonthsKeepsDate(t, 1, true);
  }

  /** Vanilla mode lets March 31st minus a month run past the end of
      February, to March 3rd. */
  lemma VanillaLastMonthFromMarch31(t: int)
    requires IsDate(t, 2018, 2, 31)
    ensures IsDate(AddMonthsValue(t, -1, true), 2018, 2, 3)
  {
    AddMonthsNative(t, -1, true);
    assert MakeDay(2018, 1, 31) == MakeDay(2018, 2, 3);
    DecodeMakeDay(2018, 2, 3);
  }
}
