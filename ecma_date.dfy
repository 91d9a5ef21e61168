/** The time-value arithmetic of the JavaScript Date primitive, after the
    abstract operations of section 21.4.1 of ECMA-262 (ES2022), in UTC.
    A time value is a count of milliseconds since 1970-01-01T00:00:00Z;
    days are counted from the same instant, and the calendar is the
    proleptic Gregorian one. */
module EcmaDate {
  import JsNumber

  const MsPerSecond := 1000
  const MsPerMinute := 60000
  const MsPerHour := 3600000
  const MsPerDay := 86400000

  /** Day(t): the number of the day that holds t. */
  function Day(t: int): int { t / MsPerDay }

  /** TimeWithinDay(t): milliseconds since the start of that day. */
  function TimeWithinDay(t: int): (w: int)
    ensures 0 <= w < MsPerDay
  {
    t % MsPerDay
  }

  // ---------------------------------------------------------------------
  // Years

  /** Gregorian leap rule, as the primitive applies it. */
  predicate InLeapYear(y: int) {
    y % 4 == 0 && (y % 100 != 0 || y % 400 == 0)
  }

  function DaysInYear(y: int): (n: int)
    ensures n == 365 || n == 366
  {
    if InLeapYear(y) then 366 else 365
  }

  /** DayFromYear(y): the number of the day of January 1st of year y. */
  function DayFromYear(y: int): int {
    365 * (y - 1970) + (y - 1969) / 4 - (y - 1901) / 100 + (y - 1601) / 400
  }

  lemma DayFromYearStep(y: int)
    ensures DayFromYear(y + 1) == DayFromYear(y) + DaysInYear(y)
  {
    var x4, x100, x400 := y - 1969, y - 1901, y - 1601;
    FloorStep4(x4);
    FloorStep100(x100);
    FloorStep400(x400);
    var d4 := if y % 4 == 0 then 1 else 0;
    var d100 := if y % 100 == 0 then 1 else 0;
    var d400 := if y % 400 == 0 then 1 else 0;
    assert DayFromYear(y + 1) - DayFromYear(y) == 365 + d4 - d100 + d400;
    LeapCount(y);
  }

  lemma MultipleOf100(y: int, k: int)
    requires y == 100 * k
    ensures y % 100 == 0
  {
  }

  lemma MultipleOf4(y: int, k: int)
    requires y == 4 * k
    ensures y % 4 == 0
  {
  }

  lemma LeapCount(y: int)
    ensures DaysInYear(y) == 365 + (if y % 4 == 0 then 1 else 0)
      - (if y % 100 == 0 then 1 else 0) + (if y % 400 == 0 then 1 else 0)
  {
    if y % 400 == 0 {
      var q := y / 400;
      MultipleOf100(y, 4 * q);
      MultipleOf4(y, 100 * q);
    } else if y % 100 == 0 {
      MultipleOf4(y, 25 * (y / 100));
    }
  }

  lemma FloorStep4(x: int)
    ensures (x + 1) / 4 - x / 4 == (if (x + 1969) % 4 == 0 then 1 else 0)
  {
  }

  lemma FloorStep100(x: int)
    ensures (x + 1) / 100 - x / 100 == (if (x + 1901) % 100 == 0 then 1 else 0)
  {
  }

  lemma FloorStep400(x: int)
    ensures (x + 1) / 400 - x / 400 == (if (x + 1601) % 400 == 0 then 1 else 0)
  {
  }

  lemma {:induction false} DayFromYearMonotone(a: int, b: int)
    requires a <= b
    ensures DayFromYear(a) + 365 * (b - a) <= DayFromYear(b)
    decreases b - a
  {
    if a < b {
      DayFromYearStep(a);
      DayFromYearMonotone(a + 1, b);
    }
  }

  /** Year y holds day number `day`. */
  predicate YearHolds(y: int, day: int) {
    DayFromYear(y) <= day < DayFromYear(y + 1)
  }

  lemma YearHoldsUnique(a: int, b: int, day: int)
    requires YearHolds(a, day) && YearHolds(b, day)
    ensures a == b
  {
    if a < b {
      DayFromYearMonotone(a + 1, b);
    } else if b < a {
      DayFromYearMonotone(b + 1, a);
    }
  }

  /** The year that holds `day`, found by walking year by year from `y`. */
  function FindYear(day: int, y: int): (r: int)
    ensures YearHolds(r, day)
    decreases if day < DayFromYear(y) then DayFromYear(y) - day else 0, day - DayFromYear(y)
  {
    DayFromYearStep(y);
    DayFromYearStep(y - 1);
    if day < DayFromYear(y) then FindYear(day, y - 1)
    else if day >= DayFromYear(y + 1) then FindYear(day, y + 1)
    else y
  }

  /** YearFromTime, on day numbers. */
  function YearOfDay(day: int): (y: int)
    ensures YearHolds(y, day)
  {
    FindYear(day, 1970)
  }

  // ---------------------------------------------------------------------
  // Months and dates

  /** Days of year y before the first of zero-based month m (m == 12 gives
      the length of the year). */
  function MonthStart(m: int, leap: bool): int
    requires 0 <= m <= 12
  {
    [0, 31, 59, 90, 120, 151, 181, 212, 243, 273, 304, 334, 365][m]
      + (if leap && m >= 2 then 1 else 0)
  }

  /** Length of zero-based month m of year y under the Gregorian rule. */
  function DaysInMonth(y: int, m: int): (n: int)
    requires 0 <= m < 12
    ensures 28 <= n <= 31
    ensures n == 29 <==> m == 1 && InLeapYear(y)
  {
    MonthStart(m + 1, InLeapYear(y)) - MonthStart(m, InLeapYear(y))
  }

  /** The month holding day `d` of a year (counted from 0), searched from m. */
  function FindMonth(d: int, leap: bool, m: int): (r: int)
    requires 0 <= m < 12
    requires MonthStart(m, leap) <= d < MonthStart(12, leap)
    ensures m <= r < 12
    ensures MonthStart(r, leap) <= d < MonthStart(r + 1, leap)
    decreases 12 - m
  {
    if d < MonthStart(m + 1, leap) then m else FindMonth(d, leap, m + 1)
  }

  lemma MonthHoldsUnique(a: int, b: int, d: int, leap: bool)
    requires 0 <= a < 12 && 0 <= b < 12
    requires MonthStart(a, leap) <= d < MonthStart(a + 1, leap)
    requires MonthStart(b, leap) <= d < MonthStart(b + 1, leap)
    ensures a == b
  {
  }

  function DayWithinYear(day: int): (d: int)
    ensures 0 <= d < DaysInYear(YearOfDay(day))
  {
    DayFromYearStep(YearOfDay(day));
    day - DayFromYear(YearOfDay(day))
  }

  /** MonthFromTime, on day numbers: zero-based. */
  function MonthOfDay(day: int): (m: int)
    ensures 0 <= m < 12
  {
    FindMonth(DayWithinYear(day), InLeapYear(YearOfDay(day)), 0)
  }

  /** DateFromTime, on day numbers: the one-based day of the month. */
  function DateOfDay(day: int): (d: int)
    ensures 1 <= d <= DaysInMonth(YearOfDay(day), MonthOfDay(day))
  {
    DayWithinYear(day) - MonthStart(MonthOfDay(day), InLeapYear(YearOfDay(day))) + 1
  }

  /** WeekDay, on day numbers: 0 is Sunday; day 0 (1970-01-01) was a Thursday. */
  function WeekDayOfDay(day: int): (w: int)
    ensures 0 <= w < 7
  {
    (day + 4) % 7
  }

  /** MakeDay(year, month, date): months outside 0..11 carry into the year,
      dates outside the month run on into the neighbouring months. */
  function MakeDay(year: int, month: int, date: int): int {
    var ym := year + month / 12;
    var mn := month % 12;
    DayFromYear(ym) + MonthStart(mn, InLeapYear(ym)) + date - 1
  }

  /** Decoding a valid calendar date gives that date back. */
  lemma DecodeMakeDay(y: int, m: int, d: int)
    requires 0 <= m < 12 && 1 <= d <= DaysInMonth(y, m)
    ensures YearOfDay(MakeDay(y, m, d)) == y
    ensures MonthOfDay(MakeDay(y, m, d)) == m
    ensures DateOfDay(MakeDay(y, m, d)) == d
  {
    var day := MakeDay(y, m, d);
    var leap := InLeapYear(y);
    var dy := MonthStart(m, leap) + d - 1;
    MakeDayInYear(y, m, d);
    assert MonthStart(m + 1, leap) <= MonthStart(12, leap) == DaysInYear(y);
    DayFromYearStep(y);
    assert YearHolds(y, day);
    YearHoldsUnique(YearOfDay(day), y, day);
    assert DayWithinYear(day) == dy;
    MonthHoldsUnique(MonthOfDay(day), m, dy, leap);
  }

  /** DecodeMakeDay, for a day number given by name. */
  lemma DecodeDay(y: int, m: int, d: int, day: int)
    requires 0 <= m < 12 && 1 <= d <= DaysInMonth(y, m) && day == MakeDay(y, m, d)
    ensures YearOfDay(day) == y && MonthOfDay(day) == m && DateOfDay(day) == d
  {
    DecodeMakeDay(y, m, d);
  }

  /** MakeDay with a month in 0..11 needs no carry. */
  lemma MakeDayInYear(y: int, m: int, d: int)
    requires 0 <= m < 12
    ensures MakeDay(y, m, d) == DayFromYear(y) + MonthStart(m, InLeapYear(y)) + d - 1
  {
    SmallMonth(m);
  }

  lemma SmallMonth(m: int)
    requires 0 <= m < 12
    ensures m / 12 == 0 && m % 12 == m
  {
  }

  /** Every day number is MakeDay of its own year, month and date. */
  lemma EncodeDecode(day: int)
    ensures MakeDay(YearOfDay(day), MonthOfDay(day), DateOfDay(day)) == day
  {
    var y, m, d := YearOfDay(day), MonthOfDay(day), DateOfDay(day);
    MakeDayInYear(y, m, d);
    assert d - 1 == DayWithinYear(day) - MonthStart(m, InLeapYear(y));
  }

  lemma WeekDayShift(day: int, k: int)
    ensures WeekDayOfDay(day + k) == (WeekDayOfDay(day) + k) % 7
  {
  }

  /** A month index outside 0..11 is the same as carrying whole years. */
  lemma MakeDayCarry(y: int, m: int, d: int, k: int)
    ensures MakeDay(y, m + 12 * k, d) == MakeDay(y + k, m, d)
  {
    assert (m + 12 * k) / 12 == m / 12 + k;
    assert (m + 12 * k) % 12 == m % 12;
  }

  /** MakeDay normalises its month index into year `ny` and month `nm`,
      and counts `date - 1` days on from the first of that month. */
  lemma MakeDayNormal(y: int, m: int, d: int, ny: int, nm: int)
    requires ny == y + m / 12 && nm == m % 12
    ensures MakeDay(y, m, d) == MakeDay(ny, nm, d)
    ensures MakeDay(y, m, d) == MakeDay(ny, nm, 1) + d - 1
  {
    assert nm / 12 == 0 && nm % 12 == nm;
  }

  // ---------------------------------------------------------------------
  // Time of day

  function HourFromTime(t: int): (h: int) ensures 0 <= h < 24 { (t / MsPerHour) % 24 }
  function MinFromTime(t: int): (m: int) ensures 0 <= m < 60 { (t / MsPerMinute) % 60 }
  function SecFromTime(t: int): (s: int) ensures 0 <= s < 60 { (t / MsPerSecond) % 60 }
  function MsFromTime(t: int): (ms: int) ensures 0 <= ms < 1000 { t % MsPerSecond }

  function MakeTime(hour: int, min: int, sec: int, ms: int): int {
    hour * MsPerHour + min * MsPerMinute + sec * MsPerSecond + ms
  }

  function MakeDate(day: int, time: int): int {
    day * MsPerDay + time
  }

  predicate ClockFields(h: int, m: int, s: int, ms: int) {
    0 <= h < 24 && 0 <= m < 60 && 0 <= s < 60 && 0 <= ms < 1000
  }

  /** A time value built from in-range fields decodes to those fields. */
  lemma DecodeMakeDate(day: int, h: int, m: int, s: int, ms: int)
    requires ClockFields(h, m, s, ms)
    ensures Day(MakeDate(day, MakeTime(h, m, s, ms))) == day
    ensures TimeWithinDay(MakeDate(day, MakeTime(h, m, s, ms))) == MakeTime(h, m, s, ms)
    ensures HourFromTime(MakeDate(day, MakeTime(h, m, s, ms))) == h
    ensures MinFromTime(MakeDate(day, MakeTime(h, m, s, ms))) == m
    ensures SecFromTime(MakeDate(day, MakeTime(h, m, s, ms))) == s
    ensures MsFromTime(MakeDate(day, MakeTime(h, m, s, ms))) == ms
  {
    var t := MakeDate(day, MakeTime(h, m, s, ms));
    var hours := day * 24 + h;
    var minutes := hours * 60 + m;
    var seconds := minutes * 60 + s;
    JsNumber.DivideExactly(t, seconds, ms, MsPerSecond);
    JsNumber.DivideExactly(seconds, minutes, s, 60);
    JsNumber.DivideExactly(t, minutes, s * 1000 + ms, MsPerMinute);
    JsNumber.DivideExactly(minutes, hours, m, 60);
    JsNumber.DivideExactly(t, hours, m * 60000 + s * 1000 + ms, MsPerHour);
    JsNumber.DivideExactly(hours, day, h, 24);
    JsNumber.DivideExactly(t, day, MakeTime(h, m, s, ms), MsPerDay);
  }

  /** Every time value is MakeDate of its own day and fields. */
  lemma EncodeDecodeTime(t: int)
    ensures t == MakeDate(Day(t), MakeTime(HourFromTime(t), MinFromTime(t), SecFromTime(t), MsFromTime(t)))
  {
    var seconds := t / MsPerSecond;
    var minutes := seconds / 60;
    var hours := minutes / 60;
    assert t / MsPerMinute == minutes;
    assert t / MsPerHour == hours;
    assert t / MsPerDay == hours / 24;
  }

  // ---------------------------------------------------------------------
  // Calendar fields of a time value, and the setters (UTC)

  function YearFromTime(t: int): int { YearOfDay(Day(t)) }
  function MonthFromTime(t: int): int { MonthOfDay(Day(t)) }
  function DateFromTime(t: int): int { DateOfDay(Day(t)) }
  function WeekDay(t: int): int { WeekDayOfDay(Day(t)) }

  /** Date.prototype.setDate */
  function SetDate(t: int, date: int): int {
    MakeDate(MakeDay(YearFromTime(t), MonthFromTime(t), date), TimeWithinDay(t))
  }

  /** Date.prototype.setMonth, with the month argument only */
  function SetMonth(t: int, month: int): int {
    MakeDate(MakeDay(YearFromTime(t), month, DateFromTime(t)), TimeWithinDay(t))
  }

  /** Date.prototype.setFullYear, with the year argument only */
  function SetFullYear(t: int, year: int): int {
    MakeDate(MakeDay(year, MonthFromTime(t), DateFromTime(t)), TimeWithinDay(t))
  }

  /** Date.prototype.setHours, with the hour argument only */
  function SetHours(t: int, hour: int): int {
    MakeDate(Day(t), MakeTime(hour, MinFromTime(t), SecFromTime(t), MsFromTime(t)))
  }

  /** Date.prototype.setMinutes, with the minute argument only */
  function SetMinutes(t: int, min: int): int {
    MakeDate(Day(t), MakeTime(HourFromTime(t), min, SecFromTime(t), MsFromTime(t)))
  }

  /** Date.prototype.setSeconds, with the second argument only */
  function SetSeconds(t: int, sec: int): int {
    MakeDate(Day(t), MakeTime(HourFromTime(t), MinFromTime(t), sec, MsFromTime(t)))
  }

  /** Date.prototype.setMilliseconds */
  function SetMilliseconds(t: int, ms: int): int {
    MakeDate(Day(t), MakeTime(HourFromTime(t), MinFromTime(t), SecFromTime(t), ms))
  }

  // ---------------------------------------------------------------------
  // What the setters do to the fields

  /** The time value `t` has calendar date (y, m, d). */
  predicate IsDate(t: int, y: int, m: int, d: int) {
    YearFromTime(t) == y && MonthFromTime(t) == m && DateFromTime(t) == d
  }

  lemma DecodeDayTime(day: int, w: int)
    requires 0 <= w < MsPerDay
    ensures Day(MakeDate(day, w)) == day && TimeWithinDay(MakeDate(day, w)) == w
  {
  }

  lemma SplitTime(t: int)
    ensures t == MakeDate(Day(t), TimeWithinDay(t))
  {
  }

  /** A time value is determined by its day and its time within the day. */
  lemma SameDayAndTime(a: int, b: int)
    requires Day(a) == Day(b) && TimeWithinDay(a) == TimeWithinDay(b)
    ensures a == b
  {
    SplitTime(a);
    SplitTime(b);
  }

  /** The day of a time value is MakeDay of its own calendar fields. */
  lemma DayOfFields(t: int)
    ensures MakeDay(YearFromTime(t), MonthFromTime(t), DateFromTime(t)) == Day(t)
  {
    EncodeDecode(Day(t));
  }

  /** The first of any month index: months outside 0..11 are carried into
      the year, as MakeDay does. */
  lemma FirstOfMonth(y: int, m: int)
    ensures YearOfDay(MakeDay(y, m, 1)) == y + m / 12
    ensures MonthOfDay(MakeDay(y, m, 1)) == m % 12
    ensures DateOfDay(MakeDay(y, m, 1)) == 1
  {
    var ny, nm := y + m / 12, m % 12;
    MakeDayNormal(y, m, 1, ny, nm);
    DecodeMakeDay(ny, nm, 1);
  }

  /** The fields of a time value on the first of a month index. */
  lemma FirstFields(t: int, y: int, m: int)
    requires Day(t) == MakeDay(y, m, 1)
    ensures YearFromTime(t) == y + m / 12 && MonthFromTime(t) == m % 12 && DateFromTime(t) == 1
  {
    FirstOfMonth(y, m);
  }

  /** The first of the next month is the length of this month later. */
  lemma NextMonthStart(y: int, m: int)
    requires 0 <= m < 12
    ensures MakeDay(y, m + 1, 1) == MakeDay(y, m, 1) + DaysInMonth(y, m)
  {
    var leap := InLeapYear(y);
    var n := m + 1;
    var start, next := MonthStart(m, leap), MonthStart(n, leap);
    assert DaysInMonth(y, m) == next - start;
    MakeDayInYear(y, m, 1);
    if m == 11 {
      YearEnd(y);
    } else {
      MakeDayInYear(y, n, 1);
    }
  }

  /** Month index 12 of year y is January of year y + 1. */
  lemma YearEnd(y: int)
    ensures MakeDay(y, 12, 1) == DayFromYear(y) + MonthStart(12, InLeapYear(y))
  {
    DayFromYearStep(y);
    MakeDayNormal(y, 12, 1, y + 1, 0);
    MakeDayInYear(y + 1, 0, 1);
    assert MonthStart(0, InLeapYear(y + 1)) == 0 && MonthStart(12, InLeapYear(y)) == DaysInYear(y);
  }

  /** setDate leaves the time of day and moves to date `date` of the month,
      counting on from its first day. */
  lemma SetDateFields(t: int, date: int)
    ensures Day(SetDate(t, date)) == MakeDay(YearFromTime(t), MonthFromTime(t), date)
    ensures TimeWithinDay(SetDate(t, date)) == TimeWithinDay(t)
  {
    DecodeDayTime(MakeDay(YearFromTime(t), MonthFromTime(t), date), TimeWithinDay(t));
  }

  /** setDate(1) keeps the year and the month. */
  lemma FirstOfSameMonth(t: int)
    ensures YearFromTime(SetDate(t, 1)) == YearFromTime(t)
    ensures MonthFromTime(SetDate(t, 1)) == MonthFromTime(t)
    ensures DateFromTime(SetDate(t, 1)) == 1
    ensures TimeWithinDay(SetDate(t, 1)) == TimeWithinDay(t)
  {
    var y, m := YearFromTime(t), MonthFromTime(t);
    SetDateFields(t, 1);
    FirstFields(SetDate(t, 1), y, m);
    assert m / 12 == 0 && m % 12 == m;
  }

  lemma SetMonthFields(t: int, month: int)
    ensures Day(SetMonth(t, month)) == MakeDay(YearFromTime(t), month, DateFromTime(t))
    ensures TimeWithinDay(SetMonth(t, month)) == TimeWithinDay(t)
  {
    DecodeDayTime(MakeDay(YearFromTime(t), month, DateFromTime(t)), TimeWithinDay(t));
  }

  lemma SetFullYearFields(t: int, year: int)
    ensures Day(SetFullYear(t, year)) == MakeDay(year, MonthFromTime(t), DateFromTime(t))
    ensures TimeWithinDay(SetFullYear(t, year)) == TimeWithinDay(t)
  {
    DecodeDayTime(MakeDay(year, MonthFromTime(t), DateFromTime(t)), TimeWithinDay(t));
  }

  /** `setDate(getDate() + k)` moves a time value by exactly k whole days. */
  lemma {:induction false} SetDateShift(t: int, k: int)
    ensures SetDate(t, DateFromTime(t) + k) == t + k * MsPerDay
  {
    EncodeDecode(Day(t));
    SplitTime(t);
    assert MakeDay(YearFromTime(t), MonthFromTime(t), DateFromTime(t) + k) == Day(t) + k;
  }

  /** Moving by k whole days moves the weekday by k modulo 7 and keeps the
      time of day. */
  lemma ShiftDays(t: int, k: int)
    ensures Day(t + k * MsPerDay) == Day(t) + k
    ensures TimeWithinDay(t + k * MsPerDay) == TimeWithinDay(t)
    ensures WeekDay(t + k * MsPerDay) == (WeekDay(t) + k) % 7
  {
    SplitTime(t);
    DecodeDayTime(Day(t) + k, TimeWithinDay(t));
    assert t + k * MsPerDay == MakeDate(Day(t) + k, TimeWithinDay(t));
    WeekDayShift(Day(t), k);
  }

  // ---------------------------------------------------------------------
  // The clock setters on a time value given by its fields, where the hour
  // may be 24 or more and runs on into the following days

  predicate SubHourFields(m: int, s: int, ms: int) {
    0 <= m < 60 && 0 <= s < 60 && 0 <= ms < 1000
  }

  lemma DecodeClock(day: int, h: int, m: int, s: int, ms: int)
    requires h >= 0 && SubHourFields(m, s, ms)
    ensures Day(MakeDate(day, MakeTime(h, m, s, ms))) == day + h / 24
    ensures HourFromTime(MakeDate(day, MakeTime(h, m, s, ms))) == h % 24
    ensures MinFromTime(MakeDate(day, MakeTime(h, m, s, ms))) == m
    ensures SecFromTime(MakeDate(day, MakeTime(h, m, s, ms))) == s
    ensures MsFromTime(MakeDate(day, MakeTime(h, m, s, ms))) == ms
  {
    var d2, h2 := day + h / 24, h % 24;
    assert MakeDate(day, MakeTime(h, m, s, ms)) == MakeDate(d2, MakeTime(h2, m, s, ms));
    DecodeMakeDate(d2, h2, m, s, ms);
  }

  /** setHours on a time value built from clock fields replaces the hour. */
  lemma SetHoursOnClock(day: int, h: int, m: int, s: int, ms: int, h2: int)
    requires h >= 0 && SubHourFields(m, s, ms)
    ensures SetHours(MakeDate(day, MakeTime(h, m, s, ms)), h2) == MakeDate(day + h / 24, MakeTime(h2, m, s, ms))
  {
    DecodeClock(day, h, m, s, ms);
  }

  /** setMinutes replaces the minutes and keeps an hour past 23 as it is. */
  lemma SetMinutesOnClock(day: int, h: int, m: int, s: int, ms: int, m2: int)
    requires h >= 0 && SubHourFields(m, s, ms)
    ensures SetMinutes(MakeDate(day, MakeTime(h, m, s, ms)), m2) == MakeDate(day, MakeTime(h, m2, s, ms))
  {
    DecodeClock(day, h, m, s, ms);
    var d2, h2 := day + h / 24, h % 24;
    assert MakeDate(d2, MakeTime(h2, m2, s, ms)) == MakeDate(day, MakeTime(h, m2, s, ms));
  }

  lemma SetSecondsOnClock(day: int, h: int, m: int, s: int, ms: int, s2: int)
    requires h >= 0 && SubHourFields(m, s, ms)
    ensures SetSeconds(MakeDate(day, MakeTime(h, m, s, ms)), s2) == MakeDate(day, MakeTime(h, m, s2, ms))
  {
    DecodeClock(day, h, m, s, ms);
    var d2, h2 := day + h / 24, h % 24;
    assert MakeDate(d2, MakeTime(h2, m, s2, ms)) == MakeDate(day, MakeTime(h, m, s2, ms));
  }

  lemma SetMillisecondsOnClock(day: int, h: int, m: int, s: int, ms: int, ms2: int)
    requires h >= 0 && SubHourFields(m, s, ms)
    ensures SetMilliseconds(MakeDate(day, MakeTime(h, m, s, ms)), ms2) == MakeDate(day, MakeTime(h, m, s, ms2))
  {
    DecodeClock(day, h, m, s, ms);
    var d2, h2 := day + h / 24, h % 24;
    assert MakeDate(d2, MakeTime(h2, m, s, ms2)) == MakeDate(day, MakeTime(h, m, s, ms2));
  }
}
