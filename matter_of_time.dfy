/** The MatterOfTime class: a Date whose time value the setters update in
    place. Its methods take the library's steps one setter call at a time;
    each is proved to reach the value that modules CalendarMath, Weekdays,
    TimeOfDay, Durations and AbsoluteDates define and reason about. The
    current time that the library reads from the clock is the parameter
    `now`. */
module Mot {
  import opened Wrappers
  import opened EcmaDate
  import CalendarMath
  import JsNumber
  import Durations
  import Weekdays
  import TimeOfDay
  import AbsoluteDates

  class MatterOfTime {
    /** The time value of the Date. */
    var time: int

    /** `new MatterOfTime(value)`, and the copy `new MatterOfTime(other)`. */
    constructor (t: int)
      ensures time == t
    {
      time := t;
    }

    /** `new MatterOfTime(year, month, date)`: midnight of that day. */
    constructor FromFields(year: int, month: int, date: int)
      ensures time == AbsoluteDates.NewDate(year, month, date)
    {
      time := AbsoluteDates.NewDate(year, month, date);
    }

    function GetFullYear(): int reads this { YearFromTime(time) }
    function GetMonth(): int reads this { MonthFromTime(time) }
    function GetDate(): int reads this { DateFromTime(time) }
    function GetDay(): int reads this { WeekDay(time) }
    function GetHours(): int reads this { HourFromTime(time) }

    method SetDate(date: int)
      modifies this
      ensures time == EcmaDate.SetDate(old(time), date)
    {
      time := EcmaDate.SetDate(time, date);
    }

    method SetMonth(month: int)
      modifies this
      ensures time == EcmaDate.SetMonth(old(time), month)
    {
      time := EcmaDate.SetMonth(time, month);
    }

    method SetFullYear(year: int)
      modifies this
      ensures time == EcmaDate.SetFullYear(old(time), year)
    {
      time := EcmaDate.SetFullYear(time, year);
    }

    method SetHours(hour: int)
      modifies this
      ensures time == EcmaDate.SetHours(old(time), hour)
    {
      time := EcmaDate.SetHours(time, hour);
    }

    method SetMinutes(minute: int)
      modifies this
      ensures time == EcmaDate.SetMinutes(old(time), minute)
    {
      time := EcmaDate.SetMinutes(time, minute);
    }

    method SetSeconds(second: int)
      modifies this
      ensures time == EcmaDate.SetSeconds(old(time), second)
    {
      time := EcmaDate.SetSeconds(time, second);
    }

    method SetMilliseconds(ms: int)
      modifies this
      ensures time == EcmaDate.SetMilliseconds(old(time), ms)
    {
      time := EcmaDate.SetMilliseconds(time, ms);
    }

    /** isLastOfMonth(): the date is the last of its month by the library's
        table. */
    function IsLastOfMonth(): (r: bool)
      reads this
      ensures r <==> GetDate() == CalendarMath.LastDateOfMonth(GetMonth(), GetFullYear())
    {
      CalendarMath.IsLastOfMonth(GetFullYear(), GetMonth(), GetDate())
    }

    /** at(s): sets the clock fields the string gives, in place. The error
        is what the library throws; the am/pm conflict is found after the
        fields are set. */
    method At(s: string) returns (error: Option<TimeOfDay.AtError>)
      modifies this
      ensures TimeOfDay.AtOutcome(time, error) == TimeOfDay.At(old(time), s)
    {
      ghost var t0 := time;
      var matches := TimeOfDay.Parse(s);
      if matches.None? {
        return Some(TimeOfDay.InvalidFormat);
      }
      var c := matches.value;
      TimeOfDay.AtOfMatch(t0, s, c);
      var g := c.tail;
      var hours := TimeOfDay.HourValue(c);
      GroupDigits(c);
      var minutes := if g.minutes.Some? then TimeOfDay.DigitsValue(g.minutes.value) else 0;
      var seconds := if g.seconds.Some? then TimeOfDay.DigitsValue(g.seconds.value) else 0;
      var ms := if g.fraction.Some? then TimeOfDay.DigitsValue(g.fraction.value.digits) else 0;
      SetHours(hours);
      ghost var t1 := time;
      if g.minutes.Some? {
        SetMinutes(minutes);
      }
      ghost var t2 := time;
      assert t2 == if g.minutes.Some? then EcmaDate.SetMinutes(t1, minutes) else t1;
      if g.seconds.Some? {
        SetSeconds(seconds);
      }
      ghost var t3 := time;
      assert t3 == if g.seconds.Some? then EcmaDate.SetSeconds(t2, seconds) else t2;
      if g.fraction.Some? {
        SetMilliseconds(ms);
      }
      ghost var t4 := time;
      assert t4 == TimeOfDay.SetFields(t0, c);
      if g.suffix.Some? {
        if hours > 12 {
          return Some(TimeOfDay.MeridiemIn24Hour);
        }
        if GetHours() == 12 {
          SetHours(0);
        }
        ghost var t5 := time;
        assert t5 == if HourFromTime(t4) == 12 then EcmaDate.SetHours(t4, 0) else t4;
        if g.suffix.value.meridiem == TimeOfDay.Pm {
          SetHours(GetHours() + 12);
        }
        assert time == TimeOfDay.ApplyMeridiem(t4, g.suffix.value.meridiem);
      }
      return None;
    }

    /** from(other): a new date at the sum of the two time values. */
    method From(other: int) returns (r: MatterOfTime)
      ensures fresh(r) && r.time == Durations.From(time, other)
    {
      r := new MatterOfTime(other + time);
    }

    /** tomorrow() and yesterday(): `days(1).from(this)` and
        `days(-1).from(this)`. */
    method Tomorrow() returns (r: MatterOfTime)
      ensures fresh(r) && r.time == Durations.Tomorrow(time)
    {
      var span := new MatterOfTime(Durations.Days(1));
      r := span.From(time);
    }

    method Yesterday() returns (r: MatterOfTime)
      ensures fresh(r) && r.time == Durations.Yesterday(time)
    {
      var span := new MatterOfTime(Durations.Days(-1));
      r := span.From(time);
    }

    /** addYears(count, vanilla): a copy moved by `count` years. */
    method AddYears(count: int, vanilla: bool) returns (copy: MatterOfTime)
      ensures fresh(copy) && copy.time == CalendarMath.AddYearsValue(time, count, vanilla)
    {
      ghost var t := time;
      copy := new MatterOfTime(time);
      if !vanilla && copy.GetMonth() == 1 && copy.IsLastOfMonth() {
        copy.SetDate(1);
        ghost var t1 := copy.time;
        var year := copy.GetFullYear() + count;
        copy.SetFullYear(year);
        ghost var t2 := copy.time;
        FirstMoved(t, t1, t2, year);
        var last := CalendarMath.LastDateOfMonth(1, copy.GetFullYear());
        LastSet(t2, last, year, 1);
        copy.SetDate(last);
        FebruaryEndValue(t, count, year, last, copy.time);
      } else {
        copy.SetFullYear(copy.GetFullYear() + count);
        AddYearsElsewhere(t, count, vanilla, copy.time);
      }
      assert time == t;
    }

    /** addMonths(repeat, vanilla): a copy moved by `repeat` months. */
    method AddMonths(repeat: int, vanilla: bool) returns (copy: MatterOfTime)
      ensures fresh(copy) && copy.time == CalendarMath.AddMonthsValue(time, repeat, vanilla)
    {
      ghost var t := time;
      copy := new MatterOfTime(time);
      ghost var endOfMonth := CalendarMath.IsLastOfMonth(YearFromTime(t), MonthFromTime(t), DateFromTime(t));
      assert copy.IsLastOfMonth() == endOfMonth;
      if !vanilla && copy.IsLastOfMonth() {
        var relativeMonth := GetMonth() + repeat;
        var targetMonth := JsNumber.Remainder(relativeMonth, 12);
        var targetYear := copy.GetFullYear() + JsNumber.FloorDiv(relativeMonth, 12);
        assert relativeMonth == MonthFromTime(t) + repeat;
        assert targetYear == YearFromTime(t) + JsNumber.FloorDiv(MonthFromTime(t) + repeat, 12);
        copy.SetDate(1);
        ghost var t1 := copy.time;
        copy.SetFullYear(targetYear);
        ghost var t2 := copy.time;
        FirstMoved(t, t1, t2, targetYear);
        copy.SetMonth(targetMonth);
        var last := CalendarMath.LastDateOfMonth(targetMonth, targetYear);
        MonthThenLast(t2, copy.time, targetYear, targetMonth, last);
        copy.SetDate(last);
        MonthEndValue(t, repeat, targetYear, targetMonth, last, copy.time);
      } else {
        copy.SetMonth(copy.GetMonth() + repeat);
        AddMonthsElsewhere(t, repeat, vanilla, copy.time);
      }
      assert time == t;
    }

    /** in(year): addYears(year - getFullYear()). */
    method In(year: int) returns (copy: MatterOfTime)
      ensures fresh(copy) && copy.time == CalendarMath.InValue(time, year)
    {
      copy := AddYears(year - GetFullYear(), false);
    }

    /** next.week(repeat), last.week(repeat): `weeks(±repeat).from(this)`. */
    method NextWeek(repeat: Option<int>) returns (r: MatterOfTime)
      ensures fresh(r) && r.time == Durations.From(Durations.Weeks(RepeatOrOne(repeat)), time)
    {
      var span := new MatterOfTime(Durations.Weeks(RepeatOrOne(repeat)));
      r := span.From(time);
    }

    method LastWeek(repeat: Option<int>) returns (r: MatterOfTime)
      ensures fresh(r) && r.time == Durations.From(Durations.Weeks(-RepeatOrOne(repeat)), time)
    {
      var span := new MatterOfTime(Durations.Weeks(-RepeatOrOne(repeat)));
      r := span.From(time);
    }

    /** next.month, last.month, next.year, last.year: addMonths or
        addYears by ±repeat. */
    method NextMonth(repeat: Option<int>, vanilla: bool) returns (r: MatterOfTime)
      ensures fresh(r) && r.time == CalendarMath.AddMonthsValue(time, RepeatOrOne(repeat), vanilla)
    {
      r := AddMonths(RepeatOrOne(repeat), vanilla);
    }

    method LastMonth(repeat: Option<int>, vanilla: bool) returns (r: MatterOfTime)
      ensures fresh(r) && r.time == CalendarMath.AddMonthsValue(time, -RepeatOrOne(repeat), vanilla)
    {
      r := AddMonths(-RepeatOrOne(repeat), vanilla);
    }

    method NextYear(repeat: Option<int>, vanilla: bool) returns (r: MatterOfTime)
      ensures fresh(r) && r.time == CalendarMath.AddYearsValue(time, RepeatOrOne(repeat), vanilla)
    {
      r := AddYears(RepeatOrOne(repeat), vanilla);
    }

    method LastYear(repeat: Option<int>, vanilla: bool) returns (r: MatterOfTime)
      ensures fresh(r) && r.time == CalendarMath.AddYearsValue(time, -RepeatOrOne(repeat), vanilla)
    {
      r := AddYears(-RepeatOrOne(repeat), vanilla);
    }

    /** calcWeekdayDate, calcNextWeekdayDate, calcLastWeekdayDate and
        calcUpcomingWeekdayDate: a copy with its date moved. */
    method CurrentWeekday(day: int) returns (date: MatterOfTime)
      ensures fresh(date) && date.time == Weekdays.CurrentWeekday(time, day)
    {
      date := new MatterOfTime(time);
      ghost var t := time;
      date.SetDate(date.GetDate() + day - date.GetDay());
      assert date.time == Weekdays.CurrentWeekday(t, day);
      assert time == t;
    }

    method NextWeekday(day: int) returns (date: MatterOfTime)
      ensures fresh(date) && date.time == Weekdays.NextWeekday(time, day)
    {
      ghost var t := time;
      date := new MatterOfTime(time);
      date.SetDate(date.GetDate() + 7 + day - date.GetDay());
      assert date.time == Weekdays.NextWeekday(t, day);
      assert time == t;
    }

    method LastWeekday(day: int) returns (date: MatterOfTime)
      ensures fresh(date) && date.time == Weekdays.LastWeekday(time, day)
    {
      ghost var t := time;
      date := new MatterOfTime(time);
      date.SetDate(date.GetDate() - 7 + day - date.GetDay());
      assert date.time == Weekdays.LastWeekday(t, day);
      assert time == t;
    }

    method UpcomingWeekday(day: int) returns (date: MatterOfTime)
      ensures fresh(date) && date.time == Weekdays.UpcomingWeekday(time, day)
    {
      if GetDay() >= day {
        date := NextWeekday(day);
      } else {
        date := CurrentWeekday(day);
      }
    }
  }

  /** `if (typeof repeat !== 'number' || repeat < 1) repeat = 1`. */
  function RepeatOrOne(repeat: Option<int>): (r: int)
    ensures r >= 1
    ensures repeat.Some? && repeat.value >= 1 ==> r == repeat.value
  {
    if repeat.None? || repeat.value < 1 then 1 else repeat.value
  }

  /** The groups of a match that at() reads as numbers are digits. */
  lemma GroupDigits(c: TimeOfDay.Capture)
    requires TimeOfDay.WellFormed(c)
    ensures c.tail.minutes.Some? ==> TimeOfDay.AllDigits(c.tail.minutes.value)
    ensures c.tail.seconds.Some? ==> TimeOfDay.AllDigits(c.tail.seconds.value)
    ensures c.tail.fraction.Some? ==> TimeOfDay.AllDigits(c.tail.fraction.value.digits)
  {
  }

  // ---------------------------------------------------------------------
  // The setter steps of addYears and addMonths

  /** Moving the first of a month to another year keeps the month. */
  lemma YearOnFirst(t: int, year: int)
    requires DateFromTime(t) == 1
    ensures Day(EcmaDate.SetFullYear(t, year)) == MakeDay(year, MonthFromTime(t), 1)
    ensures YearFromTime(EcmaDate.SetFullYear(t, year)) == year
    ensures MonthFromTime(EcmaDate.SetFullYear(t, year)) == MonthFromTime(t)
    ensures DateFromTime(EcmaDate.SetFullYear(t, year)) == 1
    ensures TimeWithinDay(EcmaDate.SetFullYear(t, year)) == TimeWithinDay(t)
  {
    var m := MonthFromTime(t);
    SetFullYearFields(t, year);
    FirstFields(EcmaDate.SetFullYear(t, year), year, m);
    assert m / 12 == 0 && m % 12 == m;
  }

  /** setDate(1) then setFullYear(year): the first of the same month in
      that year, at the same time of day. */
  lemma FirstMoved(t: int, t1: int, t2: int, year: int)
    requires t1 == EcmaDate.SetDate(t, 1) && t2 == EcmaDate.SetFullYear(t1, year)
    ensures YearFromTime(t1) == YearFromTime(t)
    ensures YearFromTime(t2) == year && MonthFromTime(t2) == MonthFromTime(t)
    ensures DateFromTime(t2) == 1 && TimeWithinDay(t2) == TimeWithinDay(t)
  {
    EcmaDate.FirstOfSameMonth(t);
    YearOnFirst(t1, year);
  }

  /** setMonth(month) on the first of a month in `year`, then setDate(last):
      day `last` of that month index counted from January of `year`. */
  lemma MonthThenLast(t2: int, t3: int, year: int, month: int, last: int)
    requires DateFromTime(t2) == 1 && YearFromTime(t2) == year
    requires t3 == EcmaDate.SetMonth(t2, month)
    ensures EcmaDate.SetDate(t3, last) == MakeDate(MakeDay(year, month, last), TimeWithinDay(t2))
  {
    SetMonthFields(t2, month);
    FirstFields(t3, year, month);
    MakeDayNormal(year, month, last, year + month / 12, month % 12);
  }

  /** setDate(last) on a time value whose year and month are known. */
  lemma LastSet(t2: int, last: int, year: int, month: int)
    requires YearFromTime(t2) == year && MonthFromTime(t2) == month
    ensures EcmaDate.SetDate(t2, last) == MakeDate(MakeDay(year, month, last), TimeWithinDay(t2))
  {
  }

  /** Day `last` of February `count` years on, at t's time of day, is what
      addYears gives for the last day of February. */
  lemma FebruaryEndValue(t: int, count: int, year: int, last: int, r: int)
    requires MonthFromTime(t) == 1
    requires CalendarMath.IsLastOfMonth(YearFromTime(t), MonthFromTime(t), DateFromTime(t))
    requires year == YearFromTime(t) + count && last == CalendarMath.LastDateOfMonth(1, year)
    requires r == MakeDate(MakeDay(year, 1, last), TimeWithinDay(t))
    ensures r == CalendarMath.AddYearsValue(t, count, false)
  {
  }

  /** Elsewhere addYears is one setFullYear. */
  lemma AddYearsElsewhere(t: int, count: int, vanilla: bool, r: int)
    requires !(!vanilla && MonthFromTime(t) == 1
      && CalendarMath.IsLastOfMonth(YearFromTime(t), MonthFromTime(t), DateFromTime(t)))
    requires r == EcmaDate.SetFullYear(t, YearFromTime(t) + count)
    ensures r == CalendarMath.AddYearsValue(t, count, vanilla)
  {
  }

  /** Day `last` of month index tm counted from January of ty, at t's time
      of day, is what addMonths gives for the last of a month when tm and
      ty are its target month and year. */
  lemma MonthEndValue(t: int, repeat: int, ty: int, tm: int, last: int, r: int)
    requires CalendarMath.IsLastOfMonth(YearFromTime(t), MonthFromTime(t), DateFromTime(t))
    requires tm == JsNumber.Remainder(MonthFromTime(t) + repeat, 12)
    requires ty == YearFromTime(t) + JsNumber.FloorDiv(MonthFromTime(t) + repeat, 12)
    requires last == CalendarMath.LastDateOfMonth(tm, ty)
    requires r == MakeDate(MakeDay(ty, tm, last), TimeWithinDay(t))
    ensures r == CalendarMath.AddMonthsValue(t, repeat, false)
  {
  }

  /** Elsewhere addMonths is one setMonth. */
  lemma AddMonthsElsewhere(t: int, repeat: int, vanilla: bool, r: int)
    requires !(!vanilla && CalendarMath.IsLastOfMonth(YearFromTime(t), MonthFromTime(t), DateFromTime(t)))
    requires r == EcmaDate.SetMonth(t, MonthFromTime(t) + repeat)
    ensures r == CalendarMath.AddMonthsValue(t, repeat, vanilla)
  {
  }

  // ---------------------------------------------------------------------
  // The static constructors

  /** month(index, date): this year's month `index` (1 to 12), at the date
      capped by the table's length, at midnight. The year comes from the
      clock reading `now`. */
  method MonthOf(index: int, date: int, now: int) returns (r: MatterOfTime)
    ensures fresh(r) && r.time == AbsoluteDates.MonthValue(index, date, now)
  {
    var year, month := YearFromTime(now), index - 1;
    r := new MatterOfTime.FromFields(year, month, AbsoluteDates.Min(CalendarMath.LastDateOfMonth(month, date), date));
  }

  /** nthWeekdayOfMonth(day, nth, month, year): from the first of the month,
      `nth` times one day on and then on until the weekday is `day`; the
      date if the walk is still in `month`, else undefined (None). The
      clock reading is `now`. */
  method NthWeekdayOfMonth(day: int, nth: int, month: Option<int>, year: Option<int>, now: int)
    returns (r: Result<Option<MatterOfTime>, AbsoluteDates.RangeError>)
    ensures var v := AbsoluteDates.NthWeekdayValue(day, nth, month, year, now);
      && (r.Err? <==> v.Err?)
      && (r.Err? ==> r.error == v.error)
      && (r.Ok? ==> (r.value.Some? <==> v.value.Some?))
      && (r.Ok? && r.value.Some? ==> fresh(r.value.value) && r.value.value.time == v.value.value)
  {
    if day < 0 || day > 6 {
      return Err(AbsoluteDates.DayOutOfRange);
    }
    if nth <= 0 {
      return Err(AbsoluteDates.NthNotPositive);
    }
    if nth > 5 {
      return Err(AbsoluteDates.NthAboveFive);
    }
    var mot := new MatterOfTime.FromFields(YearFromTime(now), MonthFromTime(now), DateFromTime(now));
    mot.SetDate(1);
    ghost var t0 := mot.time;
    if month.Some? {
      if month.value < 0 || month.value > 11 {
        return Err(AbsoluteDates.MonthOutOfRange);
      }
      mot.SetMonth(month.value);
    }
    ghost var t1 := mot.time;
    assert t1 == AbsoluteDates.MonthSet(t0, month);
    if AbsoluteDates.Truthy(year) {
      mot.SetFullYear(year.value);
    }
    ghost var s := mot.time;
    assert s == AbsoluteDates.YearSet(t1, year);
    AbsoluteDates.NthWeekdayWalks(day, nth, month, year, now, s);
    WalkNth(mot, day, nth);
    ghost var w := AbsoluteDates.NthWalk(s, day, nth);
    if month.None? || mot.GetMonth() != month.value {
      assert AbsoluteDates.NthWeekdayValue(day, nth, month, year, now) == Ok(None);
      return Ok(None);
    }
    assert AbsoluteDates.NthWeekdayValue(day, nth, month, year, now) == Ok(Some(w));
    return Ok(Some(mot));
  }

  /** lastWeekdayOfMonth(day, month, year): from the first of the following
      month, one day back and then back until the weekday is `day`. The
      clock reading is `now`. */
  method LastWeekdayOfMonth(day: int, month: Option<int>, year: Option<int>, now: int)
    returns (r: Result<MatterOfTime, AbsoluteDates.RangeError>)
    ensures var v := AbsoluteDates.LastWeekdayValue(day, month, year, now);
      && (r.Err? <==> v.Err?)
      && (r.Err? ==> r.error == v.error)
      && (r.Ok? ==> fresh(r.value) && r.value.time == v.value)
  {
    if day < 0 || day > 6 {
      return Err(AbsoluteDates.DayOutOfRange);
    }
    var mot := new MatterOfTime(now);
    mot.SetDate(1);
    ghost var t0 := mot.time;
    if month.Some? {
      if month.value < 0 || month.value > 11 {
        return Err(AbsoluteDates.MonthOutOfRange);
      }
      mot.SetMonth(month.value);
    }
    ghost var t1 := mot.time;
    assert t1 == AbsoluteDates.MonthSet(t0, month);
    mot.SetMonth(mot.GetMonth() + 1);
    ghost var t2 := mot.time;
    assert t2 == AbsoluteDates.MonthOn(t1);
    if AbsoluteDates.Truthy(year) {
      mot.SetFullYear(year.value);
    }
    assert mot.time == AbsoluteDates.YearSet(t2, year);
    BackToWeekday(mot, day);
    return Ok(mot);
  }

  // ---------------------------------------------------------------------
  // The steps of the two walks

  /** The for loop of nthWeekdayOfMonth: `nth` rounds of the do-while
      loop; it ends on the nth `day` after the start. */
  method WalkNth(mot: MatterOfTime, day: int, nth: int)
    requires 0 <= day < 7 && nth >= 1
    modifies mot
    ensures mot.time == AbsoluteDates.NthWalk(old(mot.time), day, nth)
  {
    ghost var s := mot.time;
    var i := 0;
    while i < nth
      invariant 0 <= i <= nth
      invariant i == 0 ==> mot.time == s
      invariant i > 0 ==> mot.time == AbsoluteDates.NthWalk(s, day, i)
    {
      ghost var base := mot.time;
      OnToWeekday(mot, day);
      NthWalkNext(s, day, i, base);
      i := i + 1;
    }
  }

  /** The do-while loop of nthWeekdayOfMonth: one day on, then on until the
      weekday is `day`; it ends on the next `day` after the start. */
  method OnToWeekday(mot: MatterOfTime, day: int)
    requires 0 <= day < 7
    modifies mot
    ensures mot.time == Weekdays.DaysOn(old(mot.time), AbsoluteDates.DaysToNext(old(mot.time), day))
  {
    ghost var base := mot.time;
    var date := mot.GetDate() + 1;
    mot.SetDate(date);
    StepOn(base, 0, base, date, mot.time);
    ghost var j := 1;
    while mot.GetDay() != day
      invariant 1 <= j <= AbsoluteDates.DaysToNext(base, day)
      invariant mot.time == Weekdays.DaysOn(base, j)
      decreases AbsoluteDates.DaysToNext(base, day) - j
    {
      WalkContinues(base, day, j);
      ghost var before := mot.time;
      date := mot.GetDate() + 1;
      mot.SetDate(date);
      StepOn(base, j, before, date, mot.time);
      j := j + 1;
    }
    WalkArrives(base, day, j);
  }

  /** The do-while loop of lastWeekdayOfMonth: one day back, then back
      until the weekday is `day`; it ends on the last `day` before the
      start. */
  method BackToWeekday(mot: MatterOfTime, day: int)
    requires 0 <= day < 7
    modifies mot
    ensures mot.time == AbsoluteDates.DaysBefore(old(mot.time), AbsoluteDates.DaysToPrevious(old(mot.time), day))
  {
    ghost var s := mot.time;
    var date := mot.GetDate() - 1;
    mot.SetDate(date);
    StepBack(s, 0, s, date, mot.time);
    ghost var j := 1;
    while mot.GetDay() != day
      invariant 1 <= j <= AbsoluteDates.DaysToPrevious(s, day)
      invariant mot.time == AbsoluteDates.DaysBefore(s, j)
      decreases AbsoluteDates.DaysToPrevious(s, day) - j
    {
      BackContinues(s, day, j);
      ghost var before := mot.time;
      date := mot.GetDate() - 1;
      mot.SetDate(date);
      StepBack(s, j, before, date, mot.time);
      j := j + 1;
    }
    BackArrives(s, day, j);
  }

  /** `setDate(getDate() + 1)` on the day j days after base. */
  lemma StepOn(base: int, j: int, t: int, date: int, t': int)
    requires t == Weekdays.DaysOn(base, j) && date == DateFromTime(t) + 1 && t' == EcmaDate.SetDate(t, date)
    ensures t' == Weekdays.DaysOn(base, j + 1)
  {
    Weekdays.SetDateBy(t, DateFromTime(t) + 1, 1);
  }

  /** `setDate(getDate() - 1)` on the day j days before base. */
  lemma StepBack(base: int, j: int, t: int, date: int, t': int)
    requires t == AbsoluteDates.DaysBefore(base, j) && date == DateFromTime(t) - 1 && t' == EcmaDate.SetDate(t, date)
    ensures t' == AbsoluteDates.DaysBefore(base, j + 1)
  {
    Weekdays.SetDateBy(t, DateFromTime(t) - 1, -1);
  }

  /** The walk forwards has not passed the next `day` while it is not on it. */
  lemma WalkContinues(base: int, day: int, j: int)
    requires 0 <= day < 7 && 1 <= j <= AbsoluteDates.DaysToNext(base, day)
    requires WeekDay(Weekdays.DaysOn(base, j)) != day
    ensures j < AbsoluteDates.DaysToNext(base, day)
  {
    AbsoluteDates.DaysToNextIsFirst(base, day);
  }

  /** The walk forwards stops at the next `day`. */
  lemma WalkArrives(base: int, day: int, j: int)
    requires 0 <= day < 7 && 1 <= j <= AbsoluteDates.DaysToNext(base, day)
    requires WeekDay(Weekdays.DaysOn(base, j)) == day
    ensures j == AbsoluteDates.DaysToNext(base, day)
  {
    AbsoluteDates.DaysToNextIsFirst(base, day);
  }

  /** The walk back has not passed the previous `day` while it is not on it. */
  lemma BackContinues(s: int, day: int, j: int)
    requires 0 <= day < 7 && 1 <= j <= AbsoluteDates.DaysToPrevious(s, day)
    requires WeekDay(AbsoluteDates.DaysBefore(s, j)) != day
    ensures j < AbsoluteDates.DaysToPrevious(s, day)
  {
    AbsoluteDates.DaysToPreviousIsLast(s, day);
  }

  /** The walk back stops at the previous `day`. */
  lemma BackArrives(s: int, day: int, j: int)
    requires 0 <= day < 7 && 1 <= j <= AbsoluteDates.DaysToPrevious(s, day)
    requires WeekDay(AbsoluteDates.DaysBefore(s, j)) == day
    ensures j == AbsoluteDates.DaysToPrevious(s, day)
  {
    AbsoluteDates.DaysToPreviousIsLast(s, day);
  }

  /** One round of the outer loop: from the start, or from the i-th `day`,
      the next `day` is the (i+1)-th. */
  lemma NthWalkNext(s: int, day: int, i: int, base: int)
    requires 0 <= day < 7 && i >= 0
    requires i == 0 ==> base == s
    requires i > 0 ==> base == AbsoluteDates.NthWalk(s, day, i)
    ensures Weekdays.DaysOn(base, AbsoluteDates.DaysToNext(base, day)) == AbsoluteDates.NthWalk(s, day, i + 1)
  {
    if i > 0 {
      AbsoluteDates.NthWalkIsNth(s, day, i);
      assert WeekDay(base) == day;
      assert AbsoluteDates.DaysToNext(base, day) == 7;
    }
  }
}
